/** Whole messages between generated software and hardware: what a proxy call leaves in the
    deserialiser, and what a wrapper restores from the serialiser. */
module MessageLink {
  import opened Bits
  import opened Reversal
  import opened Packing
  import opened Demarshal
  import opened Members
  import Adapter

  /** A proxy call: its words go into an idle deserialiser, whatever its buffer holds, and
      the value that comes out is the packed struct of the parameters. */
  method SendRequest(fb: Adapter.FromBit, parameters: seq<Member>, env: Env) returns (v: nat)
    requires var fields := CollectAll([], parameters); WellFormed(fields) && InRange(env, fields)
    requires fb.Valid() && fb.n == WORD && fb.asz == MessageWidth(parameters) && fb.count == 0 && fb.fifo == []
    modifies fb
    ensures fb.Valid() && fb.count == 0 && fb.fifo == []
    ensures v == PackMembers([], parameters, env)
    ensures fb.left == old(fb.left) + [v]
  {
    hide Pow2, Shr, Low, Shl, Digits, Number, PackMembers, CollectAll, ProxyWords, MessageWidth;
    var words := ProxyWords(CollectAll([], parameters), env);
    ghost var k := Adapter.Words(fb.asz, WORD);
    RequestArrives(parameters, env);
    for i := 0 to |words|
      invariant fb.Valid() && fb.left == old(fb.left)
      invariant i < k ==> fb.fifo == [] && fb.part == words[..i] && fb.chunks == old(fb.chunks)
      invariant i == k ==> |fb.fifo| == 1 && fb.part == [] && fb.chunks == old(fb.chunks) + [words]
    {
      assert words[..i] + [words[i]] == words[..i + 1];
      assert words[..|words|] == words;
      fb.Enq(words[i]);
    }
    ghost var all := fb.left + fb.fifo;
    assert all[|all| - 1] == fb.fifo[0] && fb.chunks[|all| - 1] == words;
    v := fb.Deq();
  }

  /** Reading `n` words, as many as the message has. */
  method ReadWords(tb: Adapter.ToBit, n: nat) returns (words: seq<nat>)
    requires tb.Valid() && tb.count == 0 && tb.fifo != [] && n == Adapter.Words(tb.asz, tb.n)
    modifies tb
    ensures tb.Valid() && tb.fifo == []
    ensures words == Digits(old(tb.fifo)[0], tb.n, n)
  {
    hide Pow2, Shr, Low, Shl, Digits, Adapter.Words, Adapter.Serialised;
    ghost var v := tb.fifo[0];
    ghost var d := Digits(v, tb.n, n);
    DigitsLength(v, tb.n, n);
    OneMessage(tb);
    words := [];
    for i := 0 to n
      invariant tb.Valid() && |words| == i && words == d[..i]
      invariant if i < n then tb.fifo == [v] && tb.count == i else tb.fifo == []
    {
      var w := tb.First();
      words := words + [w];
      tb.Deq();
    }
  }

  lemma OneMessage(tb: Adapter.ToBit)
    requires tb.Valid() && tb.fifo != []
    ensures tb.fifo == [tb.fifo[0]] && Adapter.Words(tb.asz, tb.n) >= 1
  {
  }

  /** An indication: the design enters a packed struct in an idle serialiser, the wrapper
      reads its words and runs the emitted assignments, and every field is restored,
      whatever the variables held. */
  method ReceiveIndication(tb: Adapter.ToBit, parameters: seq<Member>, env: Env, vars: Env) returns (after: Env)
    requires DistinctNames(parameters)
    requires var fields := CollectAll([], parameters); WellFormed(fields) && InRange(env, fields)
    requires tb.Valid() && tb.n == WORD && tb.asz == MessageWidth(parameters) && tb.fifo == []
    modifies tb
    ensures tb.Valid() && tb.fifo == []
    ensures var fields := CollectAll([], parameters);
            && (forall i :: 0 <= i < |fields| ==> Value(after, fields[i].name) == Value(env, fields[i].name))
            && (forall name :: (forall i :: 0 <= i < |fields| ==> fields[i].name != name) ==>
                  Value(after, name) == Value(vars, name))
  {
    hide Pow2, Shr, Low, Shl, Digits, Number, Pack, PackMembers, CollectAll, MessageWidth, WordsRead, Wrapper, Value;
    var fields := CollectAll([], parameters);
    var v := PackMembers([], parameters, env);
    MessageFits(parameters, env);
    IndicationArrives(parameters, env, vars);
    tb.Enq(v);
    var words := ReadWords(tb, WordsRead(fields));
    DigitsLength(v, WORD, WordsRead(fields));
    after := Wrapper(fields, words, vars);
  }

  lemma MessageFits(parameters: seq<Member>, env: Env)
    requires var fields := CollectAll([], parameters); WellFormed(fields) && InRange(env, fields)
    ensures PackMembers([], parameters, env) < Pow2(MessageWidth(parameters))
  {
    hide Pow2, Pack, PackMembers, CollectAll;
    var fields := CollectAll([], parameters);
    CollectAllPacks([], parameters, env);
    PackBound(fields, env);
    MessageHasBits(fields);
    Pow2Monotone(BitSize(fields), MessageBits(fields));
  }
}
