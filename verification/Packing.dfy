/** The code generator's layout of message fields into 32-bit words, and what the C
    code it emits does: the marshaller of a proxy and the demarshaller of a wrapper.

    Fields are unsigned and 1 to 64 bits wide. A field narrower than 33 bits is a
    32-bit C variable, a wider one a 64-bit variable. */
module Packing {
  import opened Bits
  import opened Reversal
  import Adapter

  type Name = seq<string>

  datatype Atom = Atom(name: Name, bits: nat)

  /** One entry of a bin (`paramInfo`): bits shifted..width of a field `bits` wide.
      `final` is the assignment operator: "=" when it holds, "|=" otherwise. */
  datatype ParamInfo = Piece(name: Name, width: nat, shifted: nat, bits: nat, final: bool)

  type Piece = p: ParamInfo | p.shifted <= p.width witness Piece([], 0, 0, 0, true)

  const WORD: nat := 32

  // ------------------------------------------------------------------- layout

  /** Bits already used in a bin. */
  function Fill(s: seq<Piece>): nat {
    if s == [] then 0 else Fill(s[..|s| - 1]) + (s[|s| - 1].width - s[|s| - 1].shifted)
  }

  predicate WellFormed(atoms: seq<Atom>) {
    forall i :: 0 <= i < |atoms| ==> 1 <= atoms[i].bits <= 64
  }

  function Head(pro: nat, atoms: seq<Atom>): int {
    if atoms == [] then 0 else atoms[0].bits - pro
  }

  /** `accumWords`: `s` is the bin being filled, `pro` the bits of the first atom that
      are already placed. */
  function AccumWords(s: seq<Piece>, pro: nat, atoms: seq<Atom>): (bins: seq<seq<Piece>>)
    requires Fill(s) < WORD && WellFormed(atoms)
    requires atoms != [] ==> pro < atoms[0].bits
    decreases |atoms|, Head(pro, atoms)
  {
    if atoms == [] then
      if s == [] then [] else [s]
    else
      var w := Fill(s);
      var a := atoms[0];
      if a.bits - pro + w == WORD then
        [s + [Piece(a.name, a.bits, pro, a.bits, true)]] + AccumWords([], 0, atoms[1..])
      else if a.bits - pro + w < WORD then
        var t := s + [Piece(a.name, a.bits, pro, a.bits, true)];
        assert t[..|t| - 1] == s;
        AccumWords(t, 0, atoms[1..])
      else
        [s + [Piece(a.name, pro + (WORD - w), pro, a.bits, false)]] + AccumWords([], pro + (WORD - w), atoms)
  }

  /** The layout one step at a time. */
  lemma AccumStep(s: seq<Piece>, pro: nat, atoms: seq<Atom>)
    requires Fill(s) < WORD && WellFormed(atoms) && (atoms != [] ==> pro < atoms[0].bits)
    ensures atoms == [] ==> AccumWords(s, pro, atoms) == if s == [] then [] else [s]
    ensures atoms != [] ==>
      var (a, w, bins) := (atoms[0], Fill(s), AccumWords(s, pro, atoms));
      var p := Piece(a.name, a.bits, pro, a.bits, true);
      && Fill(s + [p]) == w + a.bits - pro
      && (a.bits - pro + w == WORD ==> bins == [s + [p]] + AccumWords([], 0, atoms[1..]))
      && (a.bits - pro + w < WORD ==> bins == AccumWords(s + [p], 0, atoms[1..]))
      && (a.bits - pro + w > WORD ==>
          bins == [s + [Piece(a.name, pro + (WORD - w), pro, a.bits, false)]] + AccumWords([], pro + (WORD - w), atoms))
  {
    if atoms != [] {
      assert (s + [Piece(atoms[0].name, atoms[0].bits, pro, atoms[0].bits, true)])[..|s|] == s;
    }
  }

  // -------------------------------------------------- the message as a number

  type Env = map<Name, nat>

  function Value(env: Env, name: Name): nat {
    if name in env then env[name] else 0
  }

  /** Every field's value is inside its width. */
  predicate InRange(env: Env, atoms: seq<Atom>) {
    forall i :: 0 <= i < |atoms| ==> Value(env, atoms[i].name) < Pow2(atoms[i].bits)
  }

  function BitSize(atoms: seq<Atom>): nat {
    if atoms == [] then 0 else atoms[0].bits + BitSize(atoms[1..])
  }

  /** Bluespec packing: the first field in the highest bits. */
  function Pack(fields: seq<Atom>, env: Env): nat {
    if fields == [] then 0
    else Shl(Value(env, fields[0].name), BitSize(fields[1..])) + Pack(fields[1..], env)
  }

  /** The same number built from the last field up, in the order the bins are filled. */
  function PackUp(atoms: seq<Atom>, env: Env): nat {
    if atoms == [] then 0
    else Value(env, atoms[0].name) + Shl(PackUp(atoms[1..], env), atoms[0].bits)
  }

  /** What is still to be placed when `pro` bits of the first atom are gone. */
  function Rest(pro: nat, atoms: seq<Atom>, env: Env): nat
    requires atoms != [] ==> pro <= atoms[0].bits
  {
    if atoms == [] then 0
    else Shr(Value(env, atoms[0].name), pro) + Shl(PackUp(atoms[1..], env), atoms[0].bits - pro)
  }

  lemma {:induction false} PackUpSnoc(atoms: seq<Atom>, a: Atom, env: Env)
    ensures PackUp(atoms + [a], env) == PackUp(atoms, env) + Shl(Value(env, a.name), BitSize(atoms))
    ensures BitSize(atoms + [a]) == BitSize(atoms) + a.bits
    decreases |atoms|
  {
    if atoms == [] {
      assert (atoms + [a])[1..] == [];
      ShlZero(Value(env, a.name), 0);
      ShlZero(0, a.bits);
    } else {
      hide Pow2, Shl;
      var x, r := atoms[0], atoms[1..];
      assert (atoms + [a])[1..] == r + [a];
      PackUpSnoc(r, a, env);
      ShlAdd(PackUp(r, env), Shl(Value(env, a.name), BitSize(r)), x.bits);
      ShlShl(Value(env, a.name), x.bits, BitSize(r));
    }
  }

  lemma {:induction false} PackReversed(fields: seq<Atom>, env: Env)
    ensures PackUp(Reverse(fields), env) == Pack(fields, env)
    ensures BitSize(Reverse(fields)) == BitSize(fields)
    decreases |fields|
  {
    if fields != [] {
      PackReversed(fields[1..], env);
      assert Reverse(fields) == Reverse(fields[1..]) + [fields[0]];
      PackUpSnoc(Reverse(fields[1..]), fields[0], env);
    }
  }

  lemma {:induction false} PackBound(fields: seq<Atom>, env: Env)
    requires InRange(env, fields)
    ensures Pack(fields, env) < Pow2(BitSize(fields))
    decreases |fields|
  {
    if fields != [] {
      hide Pow2, Shl;
      PackBound(fields[1..], env);
      assert Value(env, fields[0].name) < Pow2(fields[0].bits);
      JoinBound(Pack(fields[1..], env), Value(env, fields[0].name), BitSize(fields[1..]), fields[0].bits);
    }
  }

  // ---------------------------------------------- C semantics of the marshaller

  /** Width of the C variable that holds a field. */
  function CBits(bits: nat): nat {
    if bits <= 32 then 32 else 64
  }

  /** One operand of the emitted expression: `((field>>shr)<<shl)`. */
  datatype Term = Term(name: Name, shr: nat, shl: nat, bits: nat)

  /** Its value in C: the left shift keeps only the variable's own bits. */
  function TermValue(t: Term, env: Env): nat {
    Low(Shl(Shr(Value(env, t.name), t.shr), t.shl), CBits(t.bits))
  }

  /** The operands joined by `|`. */
  function OrTerms(word: seq<Term>, env: Env): nat {
    if word == [] then 0
    else Or(OrTerms(word[..|word| - 1], env), TermValue(word[|word| - 1], env))
  }

  /** The operands emitted for a bin. */
  function Terms(w: seq<Piece>): (r: seq<Term>)
    ensures |r| == |w|
  {
    if w == [] then []
    else
      var u, p := w[..|w| - 1], w[|w| - 1];
      Terms(u) + [Term(p.name, p.shifted, Fill(u), p.bits)]
  }

  /** `generate_marshall`: the loop that emits the operands of one WRITEL. */
  method GenerateMarshall(w: seq<Piece>) returns (word: seq<Term>)
    ensures word == Terms(w)
  {
    var off := 0;
    word := [];
    for i := 0 to |w|
      invariant off == Fill(w[..i])
      invariant word == Terms(w[..i])
    {
      var e := w[i];
      word := word + [Term(e.name, e.shifted, off, e.bits)];
      assert w[..i + 1][..i] == w[..i];
      off := off + e.width - e.shifted;
    }
    assert w[..|w|] == w;
  }

  /** What the hardware register receives: WRITEL takes an unsigned 32-bit word. */
  function WordWritten(w: seq<Piece>, env: Env): nat {
    Low(OrTerms(Terms(w), env), WORD)
  }

  /** The words a proxy writes, in order: the list of WRITELs is reversed. */
  function Written(bins: seq<seq<Piece>>, env: Env): (ws: seq<nat>)
    ensures |ws| == |bins|
  {
    if bins == [] then [] else Written(bins[1..], env) + [WordWritten(bins[0], env)]
  }

  // ------------------------------------------------------------- bins as numbers

  /** A piece inside its field, and the field's value inside its width. */
  predicate Fits(p: Piece, env: Env) {
    && Value(env, p.name) < Pow2(p.bits)
    && p.shifted < p.width <= p.bits <= 64
    && (p.final ==> p.width == p.bits)
  }

  /** A bin under construction: every piece runs to the top of its field. */
  predicate Open(s: seq<Piece>, env: Env) {
    && (forall i :: 0 <= i < |s| ==> Fits(s[i], env) && s[i].final)
    && Fill(s) <= WORD
  }

  /** The number in a bin under construction. */
  function BinNumber(s: seq<Piece>, env: Env): nat {
    if s == [] then 0
    else
      var u, p := s[..|s| - 1], s[|s| - 1];
      BinNumber(u, env) + Shl(Shr(Value(env, p.name), p.shifted), Fill(u))
  }

  lemma FillSnoc(s: seq<Piece>, p: Piece)
    ensures Fill(s + [p]) == Fill(s) + (p.width - p.shifted)
  {
    assert (s + [p])[..|s|] == s;
  }

  lemma OpenPrefix(s: seq<Piece>, env: Env)
    requires s != [] && Open(s, env)
    ensures Open(s[..|s| - 1], env) && Fits(s[|s| - 1], env) && s[|s| - 1].final
    ensures Shr(Value(env, s[|s| - 1].name), s[|s| - 1].shifted) < Pow2(s[|s| - 1].width - s[|s| - 1].shifted)
  {
    hide Pow2, Shl, Shr;
    var p := s[|s| - 1];
    assert Fits(p, env);
    ShrBound(Value(env, p.name), p.shifted, p.width - p.shifted);
  }

  lemma OpenSnoc(s: seq<Piece>, p: Piece, env: Env)
    requires Open(s, env) && Fits(p, env) && p.final && Fill(s) + (p.width - p.shifted) <= WORD
    ensures Open(s + [p], env) && Fill(s + [p]) == Fill(s) + (p.width - p.shifted)
    ensures BinNumber(s + [p], env) == BinNumber(s, env) + Shl(Shr(Value(env, p.name), p.shifted), Fill(s))
  {
    assert (s + [p])[..|s|] == s;
  }

  lemma OrAbove(acc: nat, x: nat, f: nat, d: nat, c: nat)
    requires acc < Pow2(f) && x < Pow2(d) && f + d <= c
    ensures Or(acc, Low(Shl(x, f), c)) == acc + Shl(x, f) < Pow2(f + d)
  {
    hide Pow2, Shr, Low, Or, Shl;
    JoinBound(acc, x, f, d);
    Pow2Monotone(f + d, c);
    LowSmall(Shl(x, f), c);
    OrDisjoint(x, acc, f);
  }

  lemma OrTermsSnoc(s: seq<Piece>, p: Piece, env: Env)
    ensures OrTerms(Terms(s + [p]), env) ==
            Or(OrTerms(Terms(s), env), TermValue(Term(p.name, p.shifted, Fill(s), p.bits), env))
  {
    hide Or, TermValue;
    assert (s + [p])[..|s|] == s;
    assert Terms(s + [p])[..|s|] == Terms(s);
  }

  lemma EmptyBin(env: Env)
    ensures OrTerms(Terms([]), env) == BinNumber([], env) == 0 && Fill([]) == 0
  {
  }

  /** The emitted expression or-s disjoint bits, so it computes the bin's number. */
  lemma {:induction false} OpenWord(s: seq<Piece>, env: Env)
    requires Open(s, env)
    ensures OrTerms(Terms(s), env) == BinNumber(s, env) < Pow2(Fill(s))
    decreases |s|
  {
    hide Pow2, Shl, Shr, Low, Or, OrTerms, Terms, BinNumber, Fill;
    if s == [] {
      EmptyBin(env);
    } else {
      var u, p := s[..|s| - 1], s[|s| - 1];
      OpenPrefix(s, env);
      OpenWord(u, env);
      assert s == u + [p];
      OrTermsSnoc(u, p, env);
      FillSnoc(u, p);
      OpenSnoc(u, p, env);
      OrAbove(BinNumber(u, env), Shr(Value(env, p.name), p.shifted), Fill(u), p.width - p.shifted, CBits(p.bits));
    }
  }

  /** A field that overflows the bin leaves exactly the bits that fit. */
  lemma SplitWord(s: seq<Piece>, p: Piece, env: Env)
    requires Open(s, env) && Fits(p, env) && Fill(s) + (p.width - p.shifted) == WORD
    ensures WordWritten(s + [p], env) ==
            BinNumber(s, env) + Shl(Low(Shr(Value(env, p.name), p.shifted), WORD - Fill(s)), Fill(s))
  {
    hide Pow2, Shl, Shr, Low, Or, OrTerms, Terms;
    var w, c := Fill(s), CBits(p.bits);
    var x, acc := Shr(Value(env, p.name), p.shifted), BinNumber(s, env);
    OpenWord(s, env);
    OrTermsSnoc(s, p, env);
    ShlLow(x, w, c - w);
    var y := Low(x, c - w);
    OrDisjoint(y, acc, w);
    var n := Shl(y, w) + acc;
    CutUnique(n, w, y, acc);
    CutTwice(n, w, WORD - w);
    LowTwice(x, WORD - w, c - w);
  }

  /** Taking `q` bits off the bottom of a number that continues above bit `m`. */
  lemma TakeBelow(x: nat, r: nat, m: nat, q: nat)
    requires q <= m
    ensures Low(x + Shl(r, m), q) == Low(x, q)
    ensures Shr(x + Shl(r, m), q) == Shr(x, q) + Shl(r, m - q)
  {
    hide Pow2, Shr, Low, Shl;
    Cut(x, q);
    ShlShl(r, q, m - q);
    ShlAdd(Shr(x, q), Shl(r, m - q), q);
    CutUnique(x + Shl(r, m), q, Shr(x, q) + Shl(r, m - q), Low(x, q));
  }

  /** What the current bin and the rest of the message amount to. */
  function Whole(s: seq<Piece>, pro: nat, atoms: seq<Atom>, env: Env): nat
    requires atoms != [] ==> pro <= atoms[0].bits
  {
    BinNumber(s, env) + Shl(Rest(pro, atoms, env), Fill(s))
  }

  lemma RestZero(atoms: seq<Atom>, env: Env)
    ensures Rest(0, atoms, env) == PackUp(atoms, env)
  {
    hide Pow2, Shr, PackUp, Shl;
    PackUpStep(atoms, env);
    if atoms != [] {
      var v := Value(env, atoms[0].name);
      ShlZero(v, 0);
      CutUnique(v, 0, v, 0);
    }
  }

  lemma WholeFresh(pro: nat, atoms: seq<Atom>, env: Env)
    requires atoms != [] ==> pro <= atoms[0].bits
    ensures Whole([], pro, atoms, env) == Rest(pro, atoms, env)
  {
    hide Pow2, Rest, Fill, BinNumber, Shl;
    ShlZero(Rest(pro, atoms, env), 0);
    EmptyBin(env);
  }

  lemma PackUpStep(atoms: seq<Atom>, env: Env)
    ensures PackUp(atoms, env) ==
            if atoms == [] then 0
            else Value(env, atoms[0].name) + Shl(PackUp(atoms[1..], env), atoms[0].bits)
  {
  }

  /** Placing the rest of the first atom keeps the whole. */
  lemma PlaceRest(s: seq<Piece>, pro: nat, atoms: seq<Atom>, env: Env)
    requires atoms != [] && pro < atoms[0].bits <= 64 && InRange(env, atoms) && Open(s, env)
    requires Fill(s) + atoms[0].bits - pro <= WORD
    ensures var t := s + [Piece(atoms[0].name, atoms[0].bits, pro, atoms[0].bits, true)];
            Open(t, env) && Fill(t) == Fill(s) + atoms[0].bits - pro &&
            Whole(t, 0, atoms[1..], env) == Whole(s, pro, atoms, env)
  {
    hide Pow2, Shl, Shr;
    var a := atoms[0];
    var p := Piece(a.name, a.bits, pro, a.bits, true);
    assert Value(env, a.name) < Pow2(a.bits);
    OpenSnoc(s, p, env);
    RestZero(atoms[1..], env);
    var x, r, w := Shr(Value(env, a.name), pro), PackUp(atoms[1..], env), Fill(s);
    ShlAdd(x, Shl(r, a.bits - pro), w);
    ShlShl(r, w, a.bits - pro);
  }

  /** A full bin is the low word of the whole. */
  lemma FullBin(t: seq<Piece>, atoms: seq<Atom>, env: Env)
    requires Open(t, env) && Fill(t) == WORD
    ensures Low(Whole(t, 0, atoms, env), WORD) == BinNumber(t, env) == WordWritten(t, env)
    ensures Shr(Whole(t, 0, atoms, env), WORD) == Whole([], 0, atoms, env)
  {
    hide Pow2, Shl, Shr, Low, OrTerms, Terms;
    OpenWord(t, env);
    RestZero(atoms, env);
    WholeFresh(0, atoms, env);
    CutUnique(Whole(t, 0, atoms, env), WORD, PackUp(atoms, env), BinNumber(t, env));
    LowSmall(BinNumber(t, env), WORD);
  }

  /** Cutting `acc + ((x + (r << m)) << w)` at bit w + q. */
  lemma CutAcross(acc: nat, w: nat, x: nat, m: nat, r: nat, q: nat)
    requires acc < Pow2(w) && q <= m
    ensures Low(acc + Shl(x + Shl(r, m), w), w + q) == acc + Shl(Low(x, q), w)
    ensures Shr(acc + Shl(x + Shl(r, m), w), w + q) == Shr(x, q) + Shl(r, m - q)
  {
    hide Pow2, Shr, Low, Shl;
    var y := x + Shl(r, m);
    CutUnique(acc + Shl(y, w), w, y, acc);
    CutTwice(acc + Shl(y, w), w, q);
    TakeBelow(x, r, m, q);
  }

  /** A bin closed by the low bits of a field is the low word of the whole. */
  lemma SplitBin(s: seq<Piece>, pro: nat, atoms: seq<Atom>, env: Env)
    requires atoms != [] && pro < atoms[0].bits <= 64 && InRange(env, atoms) && Open(s, env)
    requires Fill(s) < WORD < Fill(s) + atoms[0].bits - pro
    ensures var q := WORD - Fill(s);
            var p := Piece(atoms[0].name, pro + q, pro, atoms[0].bits, false);
            && Fits(p, env)
            && Low(Whole(s, pro, atoms, env), WORD) == WordWritten(s + [p], env)
            && Shr(Whole(s, pro, atoms, env), WORD) == Whole([], pro + q, atoms, env)
  {
    hide Pow2, Shl, Shr, Low, OrTerms, Terms, BinNumber, Fill, PackUp, WordWritten;
    var a, w, q := atoms[0], Fill(s), WORD - Fill(s);
    var p := Piece(a.name, pro + q, pro, a.bits, false);
    var v := Value(env, a.name);
    assert v < Pow2(a.bits);
    SplitWord(s, p, env);
    OpenWord(s, env);
    CutAcross(BinNumber(s, env), w, Shr(v, pro), a.bits - pro, PackUp(atoms[1..], env), q);
    CutTwice(v, pro, q);
    WholeFresh(pro + q, atoms, env);
  }

  /** The last bin holds all that is left. */
  lemma LastBin(s: seq<Piece>, pro: nat, env: Env)
    requires Open(s, env)
    ensures Whole(s, pro, [], env) == BinNumber(s, env) == WordWritten(s, env) == Low(Whole(s, pro, [], env), WORD)
  {
    hide Pow2, Low, OrTerms, Terms, BinNumber, Shl;
    ShlZero(0, Fill(s));
    OpenWord(s, env);
    Pow2Monotone(Fill(s), WORD);
    LowSmall(BinNumber(s, env), WORD);
  }

  /** The words written, in order, are the base-2^32 digits of what was to be placed. */
  lemma {:induction false} WrittenDigits(s: seq<Piece>, pro: nat, atoms: seq<Atom>, env: Env)
    requires Fill(s) < WORD && Open(s, env) && WellFormed(atoms) && InRange(env, atoms)
    requires atoms != [] ==> pro < atoms[0].bits
    ensures var bins := AccumWords(s, pro, atoms);
            Written(bins, env) == Digits(Whole(s, pro, atoms, env), WORD, |bins|)
    decreases |atoms|, Head(pro, atoms)
  {
    hide Pow2, Shl, Shr, Low, OrTerms, Terms, AccumWords, Whole, BinNumber;
    AccumStep(s, pro, atoms);
    var n := Whole(s, pro, atoms, env);
    if atoms == [] {
      if s != [] {
        LastBin(s, pro, env);
        assert Written([s], env) == [] + [WordWritten(s, env)];
        assert Digits(n, WORD, 1) == [] + [Low(n, WORD)];
      }
    } else {
      var a, w := atoms[0], Fill(s);
      var bins := AccumWords(s, pro, atoms);
      if a.bits - pro + w <= WORD {
        var t := s + [Piece(a.name, a.bits, pro, a.bits, true)];
        PlaceRest(s, pro, atoms, env);
        if a.bits - pro + w == WORD {
          FullBin(t, atoms[1..], env);
          assert bins[1..] == AccumWords([], 0, atoms[1..]);
          WrittenDigits([], 0, atoms[1..], env);
        } else {
          WrittenDigits(t, 0, atoms[1..], env);
        }
      } else {
        var q := WORD - w;
        SplitBin(s, pro, atoms, env);
        assert bins[1..] == AccumWords([], pro + q, atoms);
        WrittenDigits([], pro + q, atoms, env);
      }
    }
  }

  /** Words needed for `t` bits. */
  function WordsFor(t: nat): nat {
    (t + 31) / 32
  }

  lemma WordsForMore(t: nat)
    ensures WordsFor(t + 32) == WordsFor(t) + 1
    ensures 0 < t <= 32 ==> WordsFor(t) == 1
    ensures WordsFor(0) == 0
  {
  }

  lemma {:induction false} WordCount(s: seq<Piece>, pro: nat, atoms: seq<Atom>)
    requires Fill(s) < WORD && WellFormed(atoms) && (s != [] ==> Fill(s) > 0)
    requires if atoms == [] then pro == 0 else pro < atoms[0].bits
    ensures pro <= BitSize(atoms)
    ensures |AccumWords(s, pro, atoms)| == WordsFor(Fill(s) + BitSize(atoms) - pro)
    decreases |atoms|, Head(pro, atoms)
  {
    hide WordsFor, AccumWords;
    AccumStep(s, pro, atoms);
    if atoms == [] {
      WordsForMore(Fill(s));
    } else {
      var a, w := atoms[0], Fill(s);
      if a.bits - pro + w == WORD {
        WordCount([], 0, atoms[1..]);
        WordsForMore(BitSize(atoms[1..]));
      } else if a.bits - pro + w < WORD {
        var t := s + [Piece(a.name, a.bits, pro, a.bits, true)];
        WordCount(t, 0, atoms[1..]);
      } else {
        WordCount([], pro + (WORD - w), atoms);
        WordsForMore(BitSize(atoms) - (pro + (WORD - w)));
      }
    }
  }

  /** What a proxy call writes: at least one word, highest first. A message without
      parameters is one zero word. */
  function ProxyWords(fields: seq<Atom>, env: Env): seq<nat>
    requires WellFormed(fields)
  {
    var bins := AccumWords([], 0, Reverse(fields));
    if bins == [] then [0] else Written(bins, env)
  }

  /** Width of the hardware's struct: a message without fields has 32 bits of padding. */
  function MessageBits(fields: seq<Atom>): nat {
    if fields == [] then 32 else BitSize(fields)
  }

  lemma MessageHasBits(fields: seq<Atom>)
    requires WellFormed(fields)
    ensures MessageBits(fields) >= 1 && (BitSize(fields) == 0 <==> fields == [])
  {
  }

  lemma EmptyMessage(env: Env)
    ensures Pack([], env) == 0 && BitSize([]) == 0
    ensures ProxyWords([], env) == [0] == Digits(0, WORD, 1) && Number([0], WORD) == 0
  {
    assert Reverse<Atom>([]) == [];
    assert [0][..0] == [];
  }

  /** For every message, with fields or without, the words a proxy writes are exactly those
      the deserialiser turns into its Bluespec packing, padded with zeros on top: one word
      at least, and no more than the bits need. */
  lemma ProxyReachesHardware(fields: seq<Atom>, env: Env)
    requires WellFormed(fields) && InRange(env, fields)
    ensures MessageBits(fields) >= 1
    ensures |ProxyWords(fields, env)| == Adapter.Words(MessageBits(fields), 32)
    ensures |ProxyWords(fields, env)| == if BitSize(fields) == 0 then 1 else (BitSize(fields) + 31) / 32
    ensures ProxyWords(fields, env) == Digits(Pack(fields, env), 32, Adapter.Words(MessageBits(fields), 32))
    ensures Number(ProxyWords(fields, env), 32) == Pack(fields, env)
    ensures Low(Number(ProxyWords(fields, env), 32), MessageBits(fields)) == Pack(fields, env)
  {
    hide Pow2, Low, Shl, Shr, AccumWords, Digits, Pack, PackUp, Rest, Whole, Written, Number, ProxyWords, BitSize;
    MessageHasBits(fields);
    PackBound(fields, env);
    var k := Adapter.Words(MessageBits(fields), WORD);
    Pow2Monotone(BitSize(fields), MessageBits(fields));
    LowSmall(Pack(fields, env), MessageBits(fields));
    if fields == [] {
      EmptyMessage(env);
    } else {
      ProxyWordsAre(fields, env);
      Pow2Monotone(BitSize(fields), WORD * k);
      NumberOfDigits(Pack(fields, env), WORD, k);
    }
  }

  lemma ProxyWordsAre(fields: seq<Atom>, env: Env)
    requires fields != [] && WellFormed(fields) && InRange(env, fields) && BitSize(fields) >= 1
    ensures ProxyWords(fields, env) == Digits(Pack(fields, env), WORD, Adapter.Words(BitSize(fields), WORD))
    ensures |ProxyWords(fields, env)| == Adapter.Words(BitSize(fields), WORD) == WordsFor(BitSize(fields))
  {
    hide Pow2, Low, Shl, Shr, AccumWords, Digits, Pack, PackUp, Rest, Whole, Written, Number;
    var atoms := Reverse(fields);
    assert Open([], env) && Fill([]) == 0;
    WordCount([], 0, atoms);
    PackReversed(fields, env);
    RestZero(atoms, env);
    WholeFresh(0, atoms, env);
    WrittenDigits([], 0, atoms, env);
    WrittenLength(AccumWords([], 0, atoms), env);
  }

  lemma WrittenLength(bins: seq<seq<Piece>>, env: Env)
    ensures |Written(bins, env)| == |bins|
  {
  }
}
