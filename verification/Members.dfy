/** Flattening of nested structs into the list of fields that is packed
    (`collectMembers`). A field's name is its path through the structs. */
module Members {
  import opened Bits
  import opened Reversal
  import opened Packing
  import opened Demarshal
  import Adapter

  datatype Type = Bit(width: nat) | Struct(members: seq<Member>)
  datatype Member = Member(name: string, t: Type)

  function Collect(scope: Name, m: Member): seq<Atom>
    decreases m
  {
    match m.t
    case Bit(width) => [Atom(scope + [m.name], width)]
    case Struct(members) => CollectAll(scope + [m.name], members)
  }

  function CollectAll(scope: Name, ms: seq<Member>): seq<Atom>
    decreases ms
  {
    if ms == [] then [] else Collect(scope, ms[0]) + CollectAll(scope, ms[1..])
  }

  // -------------------------------------------------- Bluespec's view of a struct

  function Width(m: Member): nat
    decreases m
  {
    match m.t
    case Bit(width) => width
    case Struct(members) => WidthAll(members)
  }

  function WidthAll(ms: seq<Member>): nat
    decreases ms
  {
    if ms == [] then 0 else Width(ms[0]) + WidthAll(ms[1..])
  }

  /** A struct packs its members one after the other, the first in the highest bits. */
  function PackMember(scope: Name, m: Member, env: Env): nat
    decreases m
  {
    match m.t
    case Bit(_) => Value(env, scope + [m.name])
    case Struct(members) => PackMembers(scope + [m.name], members, env)
  }

  function PackMembers(scope: Name, ms: seq<Member>, env: Env): nat
    decreases ms
  {
    if ms == [] then 0
    else Shl(PackMember(scope, ms[0], env), WidthAll(ms[1..])) + PackMembers(scope, ms[1..], env)
  }

  lemma {:induction false} PackConcat(x: seq<Atom>, y: seq<Atom>, env: Env)
    ensures Pack(x + y, env) == Shl(Pack(x, env), BitSize(y)) + Pack(y, env)
    ensures BitSize(x + y) == BitSize(x) + BitSize(y)
    decreases |x|
  {
    if x == [] {
      assert x + y == y;
      ShlZero(0, BitSize(y));
    } else {
      hide Shl;
      assert (x + y)[1..] == x[1..] + y;
      PackConcat(x[1..], y, env);
      var v := Value(env, x[0].name);
      ShlAdd(Shl(v, BitSize(x[1..])), Pack(x[1..], env), BitSize(y));
      ShlShl(v, BitSize(y), BitSize(x[1..]));
    }
  }

  /** Flattening keeps the packing. */
  lemma {:induction false} CollectPacks(scope: Name, m: Member, env: Env)
    ensures Pack(Collect(scope, m), env) == PackMember(scope, m, env)
    ensures BitSize(Collect(scope, m)) == Width(m)
    decreases m
  {
    match m.t
    case Bit(width) =>
      var a := Atom(scope + [m.name], width);
      assert [a][1..] == [];
      ShlZero(Value(env, a.name), 0);
    case Struct(members) =>
      CollectAllPacks(scope + [m.name], members, env);
  }

  lemma {:induction false} CollectAllPacks(scope: Name, ms: seq<Member>, env: Env)
    ensures Pack(CollectAll(scope, ms), env) == PackMembers(scope, ms, env)
    ensures BitSize(CollectAll(scope, ms)) == WidthAll(ms)
    decreases ms
  {
    hide Shl;
    if ms != [] {
      CollectPacks(scope, ms[0], env);
      CollectAllPacks(scope, ms[1..], env);
      PackConcat(Collect(scope, ms[0]), CollectAll(scope, ms[1..]), env);
    }
  }

  // ------------------------------------------------------------ names are unique

  predicate DistinctNames(ms: seq<Member>)
    decreases ms
  {
    && (forall i, j :: 0 <= i < j < |ms| ==> ms[i].name != ms[j].name)
    && (forall i :: 0 <= i < |ms| ==> ms[i].t.Struct? ==> DistinctNames(ms[i].t.members))
  }

  predicate Under(scope: Name, name: string, atoms: seq<Atom>) {
    forall i :: 0 <= i < |atoms| ==>
      |scope| < |atoms[i].name| && atoms[i].name[..|scope|] == scope && atoms[i].name[|scope|] == name
  }

  lemma {:induction false} CollectUnder(scope: Name, m: Member)
    ensures Under(scope, m.name, Collect(scope, m))
    decreases m, 1
  {
    match m.t
    case Bit(_) =>
    case Struct(members) =>
      var inner := scope + [m.name];
      var atoms := CollectAll(inner, members);
      CollectAllUnder(inner, members);
      forall i | 0 <= i < |atoms|
        ensures atoms[i].name[..|scope|] == scope && atoms[i].name[|scope|] == m.name
      {
        assert atoms[i].name[..|inner|] == inner;
        assert inner[..|scope|] == scope == atoms[i].name[..|inner|][..|scope|];
        assert atoms[i].name[..|inner|][|scope|] == m.name;
      }
  }

  /** Every flattened name carries the name of one of the members. */
  lemma {:induction false} CollectAllUnder(scope: Name, ms: seq<Member>)
    ensures forall a :: a in CollectAll(scope, ms) ==>
      && |scope| < |a.name| && a.name[..|scope|] == scope
      && exists i :: 0 <= i < |ms| && a.name[|scope|] == ms[i].name
    decreases ms
  {
    if ms != [] {
      CollectUnder(scope, ms[0]);
      CollectAllUnder(scope, ms[1..]);
      forall a | a in CollectAll(scope, ms[1..])
        ensures exists i :: 0 <= i < |ms| && a.name[|scope|] == ms[i].name
      {
        var i :| 0 <= i < |ms[1..]| && a.name[|scope|] == ms[1..][i].name;
        assert ms[i + 1] == ms[1..][i];
      }
    }
  }

  lemma {:induction false} CollectDistinct(scope: Name, m: Member)
    requires m.t.Struct? ==> DistinctNames(m.t.members)
    ensures DistinctAtoms(Collect(scope, m))
    decreases m
  {
    match m.t
    case Bit(_) =>
    case Struct(members) => CollectAllDistinct(scope + [m.name], members);
  }

  lemma {:induction false} CollectAllDistinct(scope: Name, ms: seq<Member>)
    requires DistinctNames(ms)
    ensures DistinctAtoms(CollectAll(scope, ms))
    decreases ms
  {
    if ms != [] {
      var x, y := Collect(scope, ms[0]), CollectAll(scope, ms[1..]);
      assert DistinctNames(ms[1..]) by {
        assert forall i :: 0 <= i < |ms[1..]| ==> ms[1..][i] == ms[i + 1];
      }
      CollectDistinct(scope, ms[0]);
      CollectAllDistinct(scope, ms[1..]);
      CollectUnder(scope, ms[0]);
      CollectAllUnder(scope, ms[1..]);
      forall i, j | 0 <= i < |x| && 0 <= j < |y|
        ensures x[i].name != y[j].name
      {
        assert y[j] in y;
        var k :| 0 <= k < |ms[1..]| && y[j].name[|scope|] == ms[1..][k].name;
        assert ms[0].name != ms[k + 1].name;
      }
    }
  }

  // ------------------------------------------------------------- a method call

  /** Width of the hardware's parameter struct, 32 bits of padding when there is nothing. */
  function MessageWidth(parameters: seq<Member>): nat {
    if CollectAll([], parameters) == [] then 32 else WidthAll(parameters)
  }

  /** Software to hardware: the words written for a call's parameters are turned by the
      deserialiser into the Bluespec packing of the parameter struct. */
  lemma RequestArrives(parameters: seq<Member>, env: Env)
    requires var fields := CollectAll([], parameters); WellFormed(fields) && InRange(env, fields)
    ensures MessageWidth(parameters) >= 1
    ensures var words := ProxyWords(CollectAll([], parameters), env);
            && |words| == Adapter.Words(MessageWidth(parameters), 32)
            && (forall i :: 0 <= i < |words| ==> words[i] < Pow2(32))
            && Low(Number(words, 32), MessageWidth(parameters)) == PackMembers([], parameters, env)
  {
    hide Low, Number, ProxyWords, Pack, PackMembers, CollectAll, Pow2, Digits;
    var fields := CollectAll([], parameters);
    CollectAllPacks([], parameters, env);
    ProxyReachesHardware(fields, env);
    DigitsBound(Pack(fields, env), 32, Adapter.Words(MessageWidth(parameters), 32));
  }

  /** Hardware to software: the words the serialiser emits for a packed struct restore
      every parameter of the call-back and change nothing else. */
  lemma IndicationArrives(parameters: seq<Member>, env: Env, vars: Env)
    requires DistinctNames(parameters)
    requires var fields := CollectAll([], parameters); WellFormed(fields) && InRange(env, fields)
    ensures var fields := CollectAll([], parameters);
            && MessageWidth(parameters) >= 1
            && WordsRead(fields) == Adapter.Words(MessageWidth(parameters), 32)
            && var after := Wrapper(fields, Digits(PackMembers([], parameters, env), 32, WordsRead(fields)), vars);
               && (forall i :: 0 <= i < |fields| ==> Value(after, fields[i].name) == Value(env, fields[i].name))
               && (forall name :: (forall i :: 0 <= i < |fields| ==> fields[i].name != name) ==>
                     Value(after, name) == Value(vars, name))
  {
    hide Digits, Pack, PackMembers, CollectAll, WordsRead, Wrapper, Pow2;
    var fields := CollectAll([], parameters);
    CollectAllDistinct([], parameters);
    CollectAllPacks([], parameters, env);
    DigitsLength(Pack(fields, env), 32, WordsRead(fields));
    WrapperRestores(fields, env, vars);
  }
}
