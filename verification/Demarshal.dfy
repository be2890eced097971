/** The C code emitted for a wrapper: it reads the words of a message, highest first,
    and rebuilds every field, across word boundaries by "=" and then "|=". */
module Demarshal {
  import opened Bits
  import opened Reversal
  import opened Packing
  import Adapter

  // ------------------------------------------- C semantics of the demarshaller

  /** `name op (type)(((type)((tmp>>shr)&mask))<<shl)`, where `mask` has `mask` bits. */
  datatype Assign = Assign(name: Name, shr: nat, mask: nat, shl: nat, bits: nat, final: bool)

  function Field(a: Assign, tmp: nat): nat {
    Low(Shl(Low(Low(Shr(tmp, a.shr), a.mask), CBits(a.bits)), a.shl), CBits(a.bits))
  }

  function Run(a: Assign, tmp: nat, vars: Env): Env {
    vars[a.name := if a.final then Field(a, tmp) else Or(Value(vars, a.name), Field(a, tmp))]
  }

  /** The assignment emitted for one piece at bit `off` of the word. */
  function AssignOf(p: Piece, off: nat): Assign {
    Assign(p.name, off, if p.bits < p.shifted then 0 else p.bits - p.shifted, p.shifted, p.bits, p.final)
  }

  function Assigns(w: seq<Piece>): seq<Assign> {
    if w == [] then []
    else Assigns(w[..|w| - 1]) + [AssignOf(w[|w| - 1], Fill(w[..|w| - 1]))]
  }

  /** `generate_demarshall`: the loop that emits the assignments after one READL. */
  method GenerateDemarshall(w: seq<Piece>) returns (word: seq<Assign>)
    ensures word == Assigns(w)
  {
    var off := 0;
    word := [];
    for i := 0 to |w|
      invariant off == Fill(w[..i])
      invariant word == Assigns(w[..i])
    {
      var e := w[i];
      word := word + [AssignOf(e, off)];
      assert w[..i + 1][..i] == w[..i];
      off := off + e.width - e.shifted;
    }
    assert w[..|w|] == w;
  }

  /** Assignments run in order on the word `tmp`. */
  function RunAssigns(word: seq<Assign>, tmp: nat, vars: Env): Env {
    if word == [] then vars
    else Run(word[|word| - 1], tmp, RunAssigns(word[..|word| - 1], tmp, vars))
  }

  /** The assignments emitted for one word. */
  function RunWord(w: seq<Piece>, tmp: nat, vars: Env): Env {
    RunAssigns(Assigns(w), tmp, vars)
  }

  lemma RunWordStep(w: seq<Piece>, tmp: nat, vars: Env)
    ensures w == [] ==> RunWord(w, tmp, vars) == vars
    ensures w != [] ==>
      var u, p := w[..|w| - 1], w[|w| - 1];
      RunWord(w, tmp, vars) == Run(AssignOf(p, Fill(u)), tmp, RunWord(u, tmp, vars))
  {
    if w != [] {
      var u, a := w[..|w| - 1], AssignOf(w[|w| - 1], Fill(w[..|w| - 1]));
      assert (Assigns(u) + [a])[..|Assigns(u)|] == Assigns(u);
    }
  }

  /** The whole demarshaller: the blocks are emitted in reverse, so the last bin reads
      the first word. `vars` are the uninitialised variables. */
  function RunAll(bins: seq<seq<Piece>>, words: seq<nat>, vars: Env): Env
    requires |bins| == |words|
  {
    if bins == [] then vars
    else
      var k := |words| - 1;
      RunWord(bins[0], words[k], RunAll(bins[1..], words[..k], vars))
  }

  // ----------------------------------------------------------- reading one word

  /** A value without its `k` low bits: what the higher words alone restore. */
  function High(v: nat, k: nat): nat {
    Shl(Shr(v, k), k)
  }

  predicate DistinctPieces(s: seq<Piece>) {
    forall i, j :: 0 <= i < j < |s| ==> s[i].name != s[j].name
  }

  lemma {:induction false} RunWordFrame(w: seq<Piece>, tmp: nat, vars: Env, name: Name)
    requires forall i :: 0 <= i < |w| ==> w[i].name != name
    ensures Value(RunWord(w, tmp, vars), name) == Value(vars, name)
    decreases |w|
  {
    RunWordStep(w, tmp, vars);
    hide RunWord;
    if w != [] {
      RunWordFrame(w[..|w| - 1], tmp, vars, name);
    }
  }

  /** A piece that reads back its own bits assigns them at their place in the field. */
  lemma FieldValue(p: Piece, off: nat, tmp: nat, z: nat)
    requires p.shifted < p.width <= p.bits <= 64
    requires Low(Shr(tmp, off), p.bits - p.shifted) == z < Pow2(p.bits - p.shifted)
    ensures Field(AssignOf(p, off), tmp) == Shl(z, p.shifted)
  {
    hide Pow2, Shl, Shr, Low;
    var c := CBits(p.bits);
    Pow2Monotone(p.bits - p.shifted, c);
    LowSmall(z, c);
    JoinBound(0, z, p.shifted, p.bits - p.shifted);
    Pow2Monotone(p.bits, c);
    LowSmall(Shl(z, p.shifted), c);
  }

  lemma TopPiece(acc: nat, f: nat, x: nat, d: nat, z: nat)
    requires acc < Pow2(f) && x < Pow2(d)
    ensures Low(Shr(acc + Shl(x + Shl(z, d), f), f), d) == x
  {
    hide Pow2, Shl, Shr, Low;
    CutUnique(acc + Shl(x + Shl(z, d), f), f, x + Shl(z, d), acc);
    CutUnique(x + Shl(z, d), d, z, x);
  }

  lemma RunWordSnoc(s: seq<Piece>, p: Piece, tmp: nat, vars: Env)
    ensures forall name :: name != p.name ==>
      Value(RunWord(s + [p], tmp, vars), name) == Value(RunWord(s, tmp, vars), name)
    ensures Value(RunWord(s + [p], tmp, vars), p.name) ==
            (var x := Field(AssignOf(p, Fill(s)), tmp);
             if p.final then x else Or(Value(RunWord(s, tmp, vars), p.name), x))
  {
    hide Or, Field, Fill, RunWord;
    RunWordStep(s + [p], tmp, vars);
    assert (s + [p])[..|s|] == s;
  }

  /** The word above the pieces of `u` is the last piece and what lies beyond it. */
  lemma Regroup(u: seq<Piece>, p: Piece, z: nat, env: Env)
    requires Open(u + [p], env) && Open(u, env) && Fits(p, env) && p.final
    ensures var (x, d, f) := (Shr(Value(env, p.name), p.shifted), p.width - p.shifted, Fill(u));
            BinNumber(u + [p], env) + Shl(z, Fill(u + [p])) == BinNumber(u, env) + Shl(x + Shl(z, d), f)
  {
    hide Pow2, Shl, Shr, BinNumber, Fill, Fits;
    FillSnoc(u, p);
    assert Fill(u) + (p.width - p.shifted) <= WORD;
    OpenSnoc(u, p, env);
    var x, d, f := Shr(Value(env, p.name), p.shifted), p.width - p.shifted, Fill(u);
    ShlAdd(x, Shl(z, d), f);
    ShlShl(z, f, d);
  }

  predicate PiecesRestored(vars: Env, s: seq<Piece>, env: Env) {
    forall i :: 0 <= i < |s| ==> Value(vars, s[i].name) == High(Value(env, s[i].name), s[i].shifted)
  }

  lemma PiecesRestoredSnoc(before: Env, after: Env, u: seq<Piece>, p: Piece, env: Env)
    requires DistinctPieces(u + [p]) && PiecesRestored(before, u, env)
    requires forall name :: name != p.name ==> Value(after, name) == Value(before, name)
    requires Value(after, p.name) == High(Value(env, p.name), p.shifted)
    ensures PiecesRestored(after, u + [p], env)
  {
    hide High, Value;
    forall i | 0 <= i < |u|
      ensures u[i].name != p.name
    {
      assert (u + [p])[i] == u[i] && (u + [p])[|u|] == p;
    }
  }

  lemma NoPieces(vars: Env, env: Env)
    ensures PiecesRestored(vars, [], env)
  {
  }

  lemma DistinctPrefix(u: seq<Piece>, p: Piece)
    requires DistinctPieces(u + [p])
    ensures DistinctPieces(u)
  {
    assert forall i :: 0 <= i < |u| ==> (u + [p])[i] == u[i];
  }

  /** Running a bin's assignments on a word whose low bits are the bin's number. */
  lemma {:induction false} OpenRun(s: seq<Piece>, tmp: nat, z: nat, vars: Env, env: Env)
    requires Open(s, env) && DistinctPieces(s)
    requires tmp == BinNumber(s, env) + Shl(z, Fill(s))
    ensures PiecesRestored(RunWord(s, tmp, vars), s, env)
    decreases |s|
  {
    hide Pow2, Shr, Low, Shl, Or, BinNumber, Fill, High, Field, RunWord, Fits, Open, DistinctPieces, PiecesRestored, Value;
    if s == [] {
      NoPieces(RunWord(s, tmp, vars), env);
    } else {
      var u, p := s[..|s| - 1], s[|s| - 1];
      assert s == u + [p];
      OpenPrefix(s, env);
      OpenWord(u, env);
      Regroup(u, p, z, env);
      DistinctPrefix(u, p);
      var x, d, f := Shr(Value(env, p.name), p.shifted), p.width - p.shifted, Fill(u);
      OpenRun(u, tmp, x + Shl(z, d), vars, env);
      TopPiece(BinNumber(u, env), f, x, d, z);
      FitsIs(p, env);
      FieldValue(p, f, tmp, x);
      HighIs(Value(env, p.name), p.shifted);
      RunWordSnoc(u, p, tmp, vars);
      PiecesRestoredSnoc(RunWord(u, tmp, vars), RunWord(s, tmp, vars), u, p, env);
    }
  }

  lemma FitsIs(p: Piece, env: Env)
    requires Fits(p, env)
    ensures p.shifted < p.width <= p.bits <= 64 && (p.final ==> p.width == p.bits)
  {
  }

  lemma HighIs(v: nat, k: nat)
    ensures High(v, k) == Shl(Shr(v, k), k)
  {
  }

  /** The "|=" of the low bits of a field onto its high bits. */
  lemma AddLowBits(v: nat, pro: nat, q: nat)
    ensures Or(High(v, pro + q), Shl(Low(Shr(v, pro), q), pro)) == High(v, pro)
  {
    hide Pow2, Shl, Shr, Low, Or;
    var x := Shr(v, pro);
    Cut(x, q);
    CutTwice(v, pro, q);
    JoinBound(0, Low(x, q), pro, q);
    OrDisjoint(Shr(v, pro + q), Shl(Low(x, q), pro), pro + q);
    ShlAdd(Shl(Shr(x, q), q), Low(x, q), pro);
    ShlShl(Shr(x, q), pro, q);
  }

  /** The low bits of a field, read from the top of a word. */
  lemma SplitField(s: seq<Piece>, p: Piece, tmp: nat, env: Env)
    requires Open(s, env) && Fits(p, env)
    requires tmp == BinNumber(s, env) + Shl(Low(Shr(Value(env, p.name), p.shifted), p.width - p.shifted), Fill(s))
    ensures Field(AssignOf(p, Fill(s)), tmp) ==
            Shl(Low(Shr(Value(env, p.name), p.shifted), p.width - p.shifted), p.shifted)
  {
    hide Pow2, Shl, Shr, Low, Or, BinNumber, Fill, Field, Fits, Value, Open;
    var q, f := p.width - p.shifted, Fill(s);
    var x := Shr(Value(env, p.name), p.shifted);
    var y := Low(x, q);
    FitsIs(p, env);
    OpenWord(s, env);
    Cut(x, q);
    CutUnique(tmp, f, y, BinNumber(s, env));
    Pow2Monotone(q, p.bits - p.shifted);
    LowSmall(y, p.bits - p.shifted);
    FieldValue(p, f, tmp, y);
  }

  /** Running a bin that ends in the low bits of a field whose high bits are in place. */
  lemma SplitRun(s: seq<Piece>, p: Piece, tmp: nat, vars: Env, env: Env)
    requires Open(s, env) && DistinctPieces(s + [p]) && Fits(p, env) && !p.final
    requires tmp == BinNumber(s, env) + Shl(Low(Shr(Value(env, p.name), p.shifted), p.width - p.shifted), Fill(s))
    requires Value(vars, p.name) == High(Value(env, p.name), p.width)
    ensures PiecesRestored(RunWord(s + [p], tmp, vars), s + [p], env)
  {
    hide Pow2, Shl, Shr, Low, Or, BinNumber, Fill, High, Field, RunWord, Fits, Value, Open, PiecesRestored;
    DistinctPrefix(s, p);
    OpenRun(s, tmp, Low(Shr(Value(env, p.name), p.shifted), p.width - p.shifted), vars, env);
    RunWordSnoc(s, p, tmp, vars);
    assert forall i :: 0 <= i < |s| ==> (s + [p])[i] == s[i];
    assert (s + [p])[|s|] == p;
    RunWordFrame(s, tmp, vars, p.name);
    SplitField(s, p, tmp, env);
    AddLowBits(Value(env, p.name), p.shifted, p.width - p.shifted);
    PiecesRestoredSnoc(RunWord(s, tmp, vars), RunWord(s + [p], tmp, vars), s, p, env);
  }

  // --------------------------------------------------------- the whole message

  predicate DistinctAtoms(atoms: seq<Atom>) {
    forall i, j :: 0 <= i < j < |atoms| ==> atoms[i].name != atoms[j].name
  }

  predicate Apart(s: seq<Piece>, atoms: seq<Atom>) {
    forall i, j :: 0 <= i < |s| && 0 <= j < |atoms| ==> s[i].name != atoms[j].name
  }

  /** The fields of the open bin and of the atoms still to be placed are restored, down
      to the bits that earlier words hold. */
  predicate Restored(vars: Env, s: seq<Piece>, pro: nat, atoms: seq<Atom>, env: Env) {
    && PiecesRestored(vars, s, env)
    && (atoms != [] ==> Value(vars, atoms[0].name) == High(Value(env, atoms[0].name), pro))
    && (forall i :: 1 <= i < |atoms| ==> Value(vars, atoms[i].name) == Value(env, atoms[i].name))
  }

  lemma HighZero(v: nat)
    ensures High(v, 0) == v
  {
    hide Pow2, Shl, Shr;
    ShlZero(v, 0);
    CutUnique(v, 0, v, 0);
  }

  /** The atoms after the first survive the assignments of a bin that does not name them. */
  lemma RestSurvives(w: seq<Piece>, tmp: nat, vars: Env, atoms: seq<Atom>)
    requires Apart(w, atoms)
    ensures forall i :: 0 <= i < |atoms| ==>
      Value(RunWord(w, tmp, vars), atoms[i].name) == Value(vars, atoms[i].name)
  {
    forall i | 0 <= i < |atoms|
      ensures Value(RunWord(w, tmp, vars), atoms[i].name) == Value(vars, atoms[i].name)
    {
      RunWordFrame(w, tmp, vars, atoms[i].name);
    }
  }

  lemma RunAllStep(b: seq<Piece>, more: seq<seq<Piece>>, n: nat, vars: Env)
    ensures RunAll([b] + more, Digits(n, WORD, |more| + 1), vars) ==
            RunWord(b, Low(n, WORD), RunAll(more, Digits(Shr(n, WORD), WORD, |more|), vars))
  {
    hide Low, Shr;
    assert ([b] + more)[1..] == more;
    assert Digits(n, WORD, |more| + 1)[..|more|] == Digits(Shr(n, WORD), WORD, |more|);
  }

  /** A bin closed by the low bits of the first atom adds them to what the later words
      restored. */
  lemma AfterSplit(mid: Env, s: seq<Piece>, p: Piece, pro: nat, q: nat, tmp: nat, atoms: seq<Atom>, env: Env)
    requires atoms != [] && p.name == atoms[0].name && p.shifted == pro && p.width == pro + q && !p.final
    requires Open(s, env) && Fits(p, env) && DistinctPieces(s) && DistinctAtoms(atoms) && Apart(s, atoms)
    requires Restored(mid, [], pro + q, atoms, env)
    requires tmp == BinNumber(s, env) + Shl(Low(Shr(Value(env, p.name), pro), q), Fill(s))
    ensures Restored(RunWord(s + [p], tmp, mid), s, pro, atoms, env)
  {
    hide Pow2, Shr, Low, Shl, BinNumber, High, RunWord, Fits, Value, Fill, Open;
    assert (s + [p])[|s|] == p;
    assert forall i :: 0 <= i < |s| ==> (s + [p])[i] == s[i];
    assert forall i :: 1 <= i < |atoms| ==> atoms[i] == atoms[1..][i - 1];
    SplitRun(s, p, tmp, mid, env);
    RestSurvives(s + [p], tmp, mid, atoms[1..]);
  }

  lemma {:induction false} RunRestores(s: seq<Piece>, pro: nat, atoms: seq<Atom>, vars: Env, env: Env)
    requires Fill(s) < WORD && Open(s, env) && WellFormed(atoms) && InRange(env, atoms)
    requires atoms != [] ==> pro < atoms[0].bits
    requires DistinctPieces(s) && DistinctAtoms(atoms) && Apart(s, atoms)
    ensures var bins := AccumWords(s, pro, atoms);
            var words := Digits(Whole(s, pro, atoms, env), WORD, |bins|);
            Restored(RunAll(bins, words, vars), s, pro, atoms, env)
    decreases |atoms|, Head(pro, atoms)
  {
    hide Pow2, Shl, Shr, Low, Or, Whole, BinNumber, High, AccumWords, WordWritten, RunAll, RunWord, Digits, Fits,
         Restored, PiecesRestored;
    AccumStep(s, pro, atoms);
    var n := Whole(s, pro, atoms, env);
    if atoms == [] {
      RunLast(s, pro, vars, env);
    } else {
      var a, w := atoms[0], Fill(s);
      if a.bits - pro + w <= WORD {
        RestPlaced(s, pro, atoms, vars, env);
      } else {
        var q := WORD - w;
        var p := Piece(a.name, pro + q, pro, a.bits, false);
        var more := AccumWords([], pro + q, atoms);
        SplitBin(s, pro, atoms, env);
        SplitWord(s, p, env);
        OpenEmpty(env);
        RunRestores([], pro + q, atoms, vars, env);
        RunAllStep(s + [p], more, n, vars);
        AfterSplit(RunAll(more, Digits(Shr(n, WORD), WORD, |more|), vars), s, p, pro, q, Low(n, WORD), atoms, env);
      }
    }
  }

  /** Nothing is left to place: the open bin, if any, is the last word. */
  lemma RunLast(s: seq<Piece>, pro: nat, vars: Env, env: Env)
    requires Fill(s) < WORD && Open(s, env) && DistinctPieces(s)
    ensures var bins := AccumWords(s, pro, []);
            Restored(RunAll(bins, Digits(Whole(s, pro, [], env), WORD, |bins|), vars), s, pro, [], env)
  {
    hide Pow2, Shl, Shr, Low, Or, Whole, BinNumber, High, AccumWords, WordWritten, RunAll, RunWord, Digits, Fits;
    AccumStep(s, pro, []);
    var n := Whole(s, pro, [], env);
    if s != [] {
      LastBin(s, pro, env);
      ShlZero(0, Fill(s));
      assert [s] + [] == [s];
      RunAllStep(s, [], n, vars);
      OpenRun(s, Low(n, WORD), 0, RunAll([], Digits(Shr(n, WORD), WORD, 0), vars), env);
    }
  }

  lemma OpenEmpty(env: Env)
    ensures Open([], env) && Fill([]) == 0
  {
  }

  /** Placing the rest of the first atom in the bin: what later steps restore for the
      longer bin is what the shorter one needs. */
  lemma AfterPlace(vars: Env, s: seq<Piece>, pro: nat, atoms: seq<Atom>, env: Env)
    requires atoms != [] && pro < atoms[0].bits
    requires Restored(vars, s + [Piece(atoms[0].name, atoms[0].bits, pro, atoms[0].bits, true)], 0, atoms[1..], env)
    ensures Restored(vars, s, pro, atoms, env)
  {
    hide High, Value;
    var t := s + [Piece(atoms[0].name, atoms[0].bits, pro, atoms[0].bits, true)];
    assert forall i :: 0 <= i < |s| ==> t[i] == s[i];
    assert t[|s|].name == atoms[0].name;
    assert forall i :: 1 <= i < |atoms| ==> atoms[i] == atoms[1..][i - 1];
    if |atoms| > 1 {
      HighZero(Value(env, atoms[1].name));
    }
  }

  /** A full bin restores its own fields and leaves the others alone. */
  lemma AfterFull(mid: Env, t: seq<Piece>, tmp: nat, atoms: seq<Atom>, env: Env)
    requires Open(t, env) && DistinctPieces(t) && Apart(t, atoms) && tmp == BinNumber(t, env)
    requires Restored(mid, [], 0, atoms, env)
    ensures Restored(RunWord(t, tmp, mid), t, 0, atoms, env)
  {
    hide Pow2, Shr, Low, Shl, BinNumber, High, RunWord, Fits, Value, Fill, Open;
    ShlZero(0, Fill(t));
    OpenRun(t, tmp, 0, mid, env);
    RestSurvives(t, tmp, mid, atoms);
  }

  lemma ApartSnoc(s: seq<Piece>, pro: nat, atoms: seq<Atom>)
    requires atoms != [] && pro < atoms[0].bits
    requires DistinctPieces(s) && DistinctAtoms(atoms) && Apart(s, atoms)
    ensures var t := s + [Piece(atoms[0].name, atoms[0].bits, pro, atoms[0].bits, true)];
            DistinctPieces(t) && DistinctAtoms(atoms[1..]) && Apart(t, atoms[1..])
  {
    var t := s + [Piece(atoms[0].name, atoms[0].bits, pro, atoms[0].bits, true)];
    assert forall i :: 0 <= i < |s| ==> t[i] == s[i];
    assert forall i :: 1 <= i < |atoms| ==> atoms[i] == atoms[1..][i - 1];
  }

  /** The case where the rest of the first atom fits the bin. */
  lemma {:induction false} RestPlaced(s: seq<Piece>, pro: nat, atoms: seq<Atom>, vars: Env, env: Env)
    requires Fill(s) < WORD && Open(s, env) && WellFormed(atoms) && InRange(env, atoms)
    requires atoms != [] && pro < atoms[0].bits && Fill(s) + atoms[0].bits - pro <= WORD
    requires DistinctPieces(s) && DistinctAtoms(atoms) && Apart(s, atoms)
    ensures var bins := AccumWords(s, pro, atoms);
            var words := Digits(Whole(s, pro, atoms, env), WORD, |bins|);
            Restored(RunAll(bins, words, vars), s, pro, atoms, env)
    decreases |atoms|, Head(pro, atoms), 0
  {
    hide Pow2, Shl, Shr, Low, Or, Whole, BinNumber, High, AccumWords, WordWritten, RunAll, RunWord, Digits, Fits,
         Restored, PiecesRestored, DistinctPieces, DistinctAtoms, Apart;
    AccumStep(s, pro, atoms);
    var n := Whole(s, pro, atoms, env);
    var a := atoms[0];
    var t := s + [Piece(a.name, a.bits, pro, a.bits, true)];
    PlaceRest(s, pro, atoms, env);
    OpenEmpty(env);
    ApartSnoc(s, pro, atoms);
    ApartEmpty(atoms[1..]);
    if Fill(s) + a.bits - pro == WORD {
      var more := AccumWords([], 0, atoms[1..]);
      FullBin(t, atoms[1..], env);
      RunRestores([], 0, atoms[1..], vars, env);
      RunAllStep(t, more, n, vars);
      AfterFull(RunAll(more, Digits(Shr(n, WORD), WORD, |more|), vars), t, Low(n, WORD), atoms[1..], env);
    } else {
      RunRestores(t, 0, atoms[1..], vars, env);
    }
    AfterPlace(RunAll(AccumWords(s, pro, atoms), Digits(n, WORD, |AccumWords(s, pro, atoms)|), vars), s, pro, atoms, env);
  }

  lemma ApartEmpty(atoms: seq<Atom>)
    ensures DistinctPieces([]) && Apart([], atoms)
  {
  }

  // ------------------------------------------------------------- the whole wrapper

  /** How many words the wrapper reads: one even for a message without fields. */
  function WordsRead(fields: seq<Atom>): nat
    requires WellFormed(fields)
  {
    var bins := AccumWords([], 0, Reverse(fields));
    if bins == [] then 1 else |bins|
  }

  /** The variables after the wrapper has run; the word of a message without fields is
      read and dropped. */
  function Wrapper(fields: seq<Atom>, words: seq<nat>, vars: Env): Env
    requires WellFormed(fields) && |words| == WordsRead(fields)
  {
    var bins := AccumWords([], 0, Reverse(fields));
    if bins == [] then vars else RunAll(bins, words, vars)
  }

  predicate NamesIn(s: seq<Piece>, names: set<Name>) {
    forall i :: 0 <= i < |s| ==> s[i].name in names
  }

  predicate AtomsIn(atoms: seq<Atom>, names: set<Name>) {
    forall i :: 0 <= i < |atoms| ==> atoms[i].name in names
  }

  lemma {:induction false} BinsIn(s: seq<Piece>, pro: nat, atoms: seq<Atom>, names: set<Name>)
    requires Fill(s) < WORD && WellFormed(atoms) && (atoms != [] ==> pro < atoms[0].bits)
    requires NamesIn(s, names) && AtomsIn(atoms, names)
    ensures forall b :: b in AccumWords(s, pro, atoms) ==> NamesIn(b, names)
    decreases |atoms|, Head(pro, atoms)
  {
    hide AccumWords;
    AccumStep(s, pro, atoms);
    if atoms != [] {
      var a, w := atoms[0], Fill(s);
      var t := s + [Piece(a.name, a.bits, pro, a.bits, true)];
      if a.bits - pro + w == WORD {
        BinsIn([], 0, atoms[1..], names);
      } else if a.bits - pro + w < WORD {
        BinsIn(t, 0, atoms[1..], names);
      } else {
        BinsIn([], pro + (WORD - w), atoms, names);
      }
    }
  }

  /** Variables that no bin names keep their values. */
  lemma {:induction false} RunAllFrame(bins: seq<seq<Piece>>, words: seq<nat>, vars: Env, names: set<Name>, name: Name)
    requires |bins| == |words| && name !in names && forall b :: b in bins ==> NamesIn(b, names)
    ensures Value(RunAll(bins, words, vars), name) == Value(vars, name)
    decreases |bins|
  {
    hide RunWord, Value;
    if bins != [] {
      var k := |words| - 1;
      RunAllFrame(bins[1..], words[..k], vars, names, name);
      assert bins[0] in bins;
      RunWordFrame(bins[0], words[k], RunAll(bins[1..], words[..k], vars), name);
    }
  }

  /** Reading the words that the serialiser emits for a packed message restores every
      field, whatever the variables held before, and changes no other variable. */
  lemma WrapperRestores(fields: seq<Atom>, env: Env, vars: Env)
    requires WellFormed(fields) && InRange(env, fields) && DistinctAtoms(fields)
    ensures MessageBits(fields) >= 1 && WordsRead(fields) == Adapter.Words(MessageBits(fields), 32)
    ensures var after := Wrapper(fields, Digits(Pack(fields, env), 32, WordsRead(fields)), vars);
            && (forall i :: 0 <= i < |fields| ==> Value(after, fields[i].name) == Value(env, fields[i].name))
            && (forall name :: (forall i :: 0 <= i < |fields| ==> fields[i].name != name) ==>
                  Value(after, name) == Value(vars, name))
  {
    hide Pow2, AccumWords, Digits, Pack, RunAll, Value;
    MessageHasBits(fields);
    DigitsLength(Pack(fields, env), 32, WordsRead(fields));
    WordsReadIs(fields);
    if fields == [] {
      assert Reverse(fields) == [];
    } else {
      FieldsRestored(fields, env, vars);
      var words := Digits(Pack(fields, env), 32, WordsRead(fields));
      forall name | forall i :: 0 <= i < |fields| ==> fields[i].name != name
        ensures Value(Wrapper(fields, words, vars), name) == Value(vars, name)
      {
        OthersKept(fields, words, vars, name);
      }
    }
  }

  lemma WordsReadIs(fields: seq<Atom>)
    requires WellFormed(fields) && MessageBits(fields) >= 1
    ensures WordsRead(fields) == Adapter.Words(MessageBits(fields), 32)
    ensures fields == [] <==> AccumWords([], 0, Reverse(fields)) == []
  {
    hide AccumWords;
    assert Fill([]) == 0;
    WordCount([], 0, Reverse(fields));
    SameSize(fields);
    MessageHasBits(fields);
  }

  lemma SameSize(fields: seq<Atom>)
    ensures BitSize(Reverse(fields)) == BitSize(fields)
  {
    PackReversed(fields, map[]);
  }

  lemma OthersKept(fields: seq<Atom>, words: seq<nat>, vars: Env, name: Name)
    requires WellFormed(fields) && |words| == WordsRead(fields)
    requires forall i :: 0 <= i < |fields| ==> fields[i].name != name
    ensures Value(Wrapper(fields, words, vars), name) == Value(vars, name)
  {
    hide AccumWords, RunAll, Value;
    var names := set i | 0 <= i < |fields| :: fields[i].name;
    var atoms := Reverse(fields);
    assert Fill([]) == 0;
    BinsIn([], 0, atoms, names);
    var bins := AccumWords([], 0, atoms);
    if bins != [] {
      RunAllFrame(bins, words, vars, names, name);
    }
  }

  lemma FieldsRestored(fields: seq<Atom>, env: Env, vars: Env)
    requires fields != [] && WellFormed(fields) && InRange(env, fields) && DistinctAtoms(fields)
    ensures var bins := AccumWords([], 0, Reverse(fields));
            forall i :: 0 <= i < |fields| ==>
              Value(RunAll(bins, Digits(Pack(fields, env), WORD, |bins|), vars), fields[i].name) == Value(env, fields[i].name)
  {
    hide Pow2, AccumWords, Digits, Pack, PackUp, Rest, Whole, RunAll, High;
    var atoms := Reverse(fields);
    OpenEmpty(env);
    WordCount([], 0, atoms);
    PackReversed(fields, env);
    RestZero(atoms, env);
    WholeFresh(0, atoms, env);
    DigitsLength(Pack(fields, env), WORD, |AccumWords([], 0, atoms)|);
    RunRestores([], 0, atoms, vars, env);
    HighZero(Value(env, atoms[0].name));
    forall i | 0 <= i < |fields|
      ensures fields[i] == atoms[|fields| - 1 - i]
    {
    }
  }
}
