/** The hand-written base64 decoder (core-rust/src/main.rs), with u8 as an 8-bit vector. */
module Base64 {
  import opened Wrappers

  type u8s = seq<bv8>

  const PAD: bv8 := 61 // '='

  // ---------------------------------------------------------------- the alphabet

  /** Table 1 of RFC 4648. */
  function Symbol(v: bv8): bv8
    requires v < 64
  {
    if v < 26 then 65 + v            // 'A'
    else if v < 52 then 97 + (v - 26) // 'a'
    else if v < 62 then 48 + (v - 52) // '0'
    else if v == 62 then 43 else 47   // '+' and '/'
  }

  /** The position of a byte in the alphabet. */
  function Position(c: bv8): (v: Option<bv8>)
    ensures v.Some? ==> v.value < 64 && Symbol(v.value) == c
  {
    if 65 <= c <= 90 then Some(c - 65)
    else if 97 <= c <= 122 then Some(c - 97 + 26)
    else if 48 <= c <= 57 then Some(c - 48 + 52)
    else if c == 43 then Some(62)
    else if c == 47 then Some(63)
    else None
  }

  /** Eight symbols from v on, as text. */
  function Eight(v: bv8): string
    requires v <= 56
  {
    [Symbol(v) as char, Symbol(v + 1) as char, Symbol(v + 2) as char, Symbol(v + 3) as char,
     Symbol(v + 4) as char, Symbol(v + 5) as char, Symbol(v + 6) as char, Symbol(v + 7) as char]
  }

  /** The symbols in order are the alphabet the decoder searches. */
  lemma AlphabetInOrder()
    ensures Eight(0) == "ABCDEFGH" && Eight(8) == "IJKLMNOP"
    ensures Eight(16) == "QRSTUVWX" && Eight(24) == "YZabcdef"
    ensures Eight(32) == "ghijklmn" && Eight(40) == "opqrstuv"
    ensures Eight(48) == "wxyz0123" && Eight(56) == "456789+/"
  {
  }

  /** And the search finds each at its place, and nothing else. */
  lemma PositionIsIndex(c: bv8, v: bv8)
    ensures Position(c) == Some(v) <==> v < 64 && Symbol(v) == c
  {
    if v < 64 {
      SymbolProperties(v);
    }
  }

  /** is_ascii_whitespace: space, tab, line feed, form feed, carriage return. */
  predicate IsSpace(c: bv8) { c == 32 || c == 9 || c == 10 || c == 12 || c == 13 }

  lemma SymbolProperties(v: bv8)
    requires v < 64
    ensures Position(Symbol(v)) == Some(v) && !IsSpace(Symbol(v)) && Symbol(v) != PAD
  {
  }

  // ---------------------------------------------------------------- encoding, section 4 of RFC 4648

  function Top(a: bv8): bv8 { a >> 2 }
  function Across(a: bv8, b: bv8): bv8 { ((a & 3) << 4) | (b >> 4) }
  function Over(b: bv8, c: bv8): bv8 { ((b & 15) << 2) | (c >> 6) }
  function Low(c: bv8): bv8 { c & 63 }

  /** The input bits in groups of six, zeros added at the end to fill the last group. */
  function Bits(x: u8s): (r: u8s)
    ensures forall i | 0 <= i < |r| :: r[i] < 64
  {
    if |x| == 0 then []
    else if |x| == 1 then [Top(x[0]), Across(x[0], 0)]
    else if |x| == 2 then [Top(x[0]), Across(x[0], x[1]), Over(x[1], 0)]
    else [Top(x[0]), Across(x[0], x[1]), Over(x[1], x[2]), Low(x[2])] + Bits(x[3..])
  }

  function Encode(x: u8s): (r: u8s)
    ensures |r| == |Bits(x)|
  {
    var b := Bits(x);
    seq(|b|, i requires 0 <= i < |b| => Symbol(b[i]))
  }

  /** The '=' signs that complete the last group of four. */
  function Padding(x: u8s): (r: u8s)
    ensures (|Encode(x)| + |r|) % 4 == 0 && |r| <= 2 && forall i | 0 <= i < |r| :: r[i] == PAD
  {
    EncodedLength(x);
    if |x| % 3 == 1 then [PAD, PAD] else if |x| % 3 == 2 then [PAD] else []
  }

  lemma {:induction false} EncodedLength(x: u8s)
    ensures |Encode(x)| % 4 == if |x| % 3 == 0 then 0 else |x| % 3 + 1
  {
    if |x| >= 3 {
      EncodedLength(x[3..]);
    }
  }

  /** A group of four sextets is the same 24 bits as its three bytes. */
  lemma GroupIs24Bits(a: bv8, b: bv8, c: bv8)
    ensures (Top(a) as bv24 << 18) | (Across(a, b) as bv24 << 12) | (Over(b, c) as bv24 << 6) | Low(c) as bv24
            == (a as bv24 << 16) | (b as bv24 << 8) | c as bv24
  {
  }

  /** Whitespace is tab, line feed, form feed, carriage return and space: not the vertical tab. */
  lemma SpacesWritten(c: bv8)
    ensures IsSpace(c) <==> c as char in ['\t', '\n', '\U{0C}', '\r', ' ']
  {
  }

  // ---------------------------------------------------------------- decoding as a function

  /** What comes before the first '='. */
  function Cut(t: u8s): u8s {
    if t == [] || t[0] == PAD then [] else [t[0]] + Cut(t[1..])
  }

  function Strip(t: u8s): u8s {
    if t == [] then []
    else
      var front := Strip(t[..|t| - 1]);
      if IsSpace(t[|t| - 1]) then front else front + [t[|t| - 1]]
  }

  predicate AllSymbols(t: u8s) { forall i | 0 <= i < |t| :: Position(t[i]).Some? }

  /** The values of the symbols, if all of them are in the alphabet. */
  function Sextets(t: u8s): (r: Option<u8s>)
    ensures r.Some? ==> |r.value| == |t| && forall i | 0 <= i < |t| :: r.value[i] < 64
    ensures r.Some? <==> AllSymbols(t)
  {
    if t == [] then Some([])
    else match (Sextets(t[..|t| - 1]), Position(t[|t| - 1]))
      case (Some(front), Some(v)) => Some(front + [v])
      case _ => None
  }

  /** The three bytes of a group of four; shifts drop what leaves the eight bits. */
  function Lead(a: bv8, b: bv8): bv8 { (a << 2) | (b >> 4) }
  function Mid(b: bv8, c: bv8): bv8 { (b << 4) | (c >> 2) }
  function Last(c: bv8, d: bv8): bv8 { (c << 6) | d }

  /** Groups of four sextets give three bytes; a rest of three gives two, a rest of two one, a rest of one none. */
  function Regroup(b: u8s): u8s {
    if |b| < 2 then []
    else if |b| == 2 then [Lead(b[0], b[1])]
    else if |b| == 3 then [Lead(b[0], b[1]), Mid(b[1], b[2])]
    else [Lead(b[0], b[1]), Mid(b[1], b[2]), Last(b[2], b[3])] + Regroup(b[4..])
  }

  function Decode(input: u8s): Option<u8s> {
    match Sextets(Strip(Cut(input)))
    case None => None
    case Some(b) => Some(Regroup(b))
  }

  // ---------------------------------------------------------------- the round trip

  /** The bits of three bytes, or of the last one or two, survive the regrouping. */
  lemma BitsSurvive(a: bv8, b: bv8, c: bv8)
    ensures Lead(Top(a), Across(a, b)) == a
    ensures Mid(Across(a, b), Over(b, c)) == b
    ensures Last(Over(b, c), Low(c)) == c
  {
  }

  lemma {:induction false} RegroupOfBits(x: u8s)
    ensures Regroup(Bits(x)) == x
  {
    hide Lead, Mid, Last, Top, Across, Over, Low;
    if |x| == 1 {
      BitsSurvive(x[0], 0, 0);
    } else if |x| == 2 {
      BitsSurvive(x[0], x[1], 0);
    } else if |x| >= 3 {
      BitsSurvive(x[0], x[1], x[2]);
      RegroupFour([Top(x[0]), Across(x[0], x[1]), Over(x[1], x[2]), Low(x[2])], Bits(x[3..]));
      RegroupOfBits(x[3..]);
      assert x == [x[0], x[1], x[2]] + x[3..];
    }
  }

  lemma RegroupFour(g: u8s, rest: u8s)
    requires |g| == 4
    ensures Regroup(g + rest)
            == [Lead(g[0], g[1]), Mid(g[1], g[2]), Last(g[2], g[3])] + Regroup(rest)
  {
    assert (g + rest)[4..] == rest;
  }

  lemma {:induction false} SextetsOfSymbols(b: u8s, t: u8s)
    requires |b| == |t| && forall i | 0 <= i < |b| :: b[i] < 64 && t[i] == Symbol(b[i])
    ensures Sextets(t) == Some(b)
  {
    if b != [] {
      var n := |b| - 1;
      SextetsOfSymbols(b[..n], t[..n]);
      SymbolProperties(b[n]);
      assert Position(t[n]) == Some(b[n]) && b == b[..n] + [b[n]];
    }
  }

  lemma {:induction false} StripConcat(a: u8s, b: u8s)
    ensures Strip(a + b) == Strip(a) + Strip(b)
  {
    if b == [] {
      assert a + b == a;
    } else {
      StripConcat(a, b[..|b| - 1]);
      assert (a + b)[..|a + b| - 1] == a + b[..|b| - 1];
    }
  }

  predicate NoPad(t: u8s) { forall i | 0 <= i < |t| :: t[i] != PAD }

  lemma {:induction false} StripKeepsNoPad(t: u8s)
    requires NoPad(t)
    ensures NoPad(Strip(t))
  {
    if t != [] {
      StripKeepsNoPad(t[..|t| - 1]);
    }
  }

  /** The cut comes at the first '='. */
  lemma {:induction false} CutAt(t: u8s, i: nat)
    requires i <= |t| && NoPad(t[..i]) && (i == |t| || t[i] == PAD)
    ensures Cut(t) == t[..i]
  {
    if i > 0 {
      assert t[..i][0] == t[0];
      assert forall k | 0 <= k < i - 1 :: t[1..][k] == t[..i][k + 1];
      CutAt(t[1..], i - 1);
    }
  }

  lemma {:induction false} CutIsPrefix(t: u8s) returns (i: nat)
    ensures i <= |t| && Cut(t) == t[..i] && NoPad(t[..i]) && (i == |t| || t[i] == PAD)
  {
    if t == [] || t[0] == PAD {
      i := 0;
    } else {
      i := CutIsPrefix(t[1..]);
      assert t[..i + 1] == [t[0]] + t[1..][..i];
      i := i + 1;
    }
  }

  /** Whitespace may be removed before or after cutting. */
  lemma StripCut(t: u8s)
    ensures Strip(Cut(t)) == Cut(Strip(t))
  {
    var i := CutIsPrefix(t);
    assert t == t[..i] + t[i..];
    StripConcat(t[..i], t[i..]);
    StripKeepsNoPad(t[..i]);
    if i < |t| {
      assert t[i..] == [PAD] + t[i + 1..];
      StripConcat([PAD], t[i + 1..]);
      assert Strip([PAD]) == [PAD] by { assert [PAD][..0] == []; }
    }
    assert Strip(t)[..|Strip(t[..i])|] == Strip(t[..i]);
    CutAt(Strip(t), |Strip(t[..i])|);
  }

  lemma EncodeHasNoPad(x: u8s)
    ensures NoPad(Encode(x))
  {
    var b := Bits(x);
    forall i | 0 <= i < |b| ensures Encode(x)[i] != PAD {
      SymbolProperties(b[i]);
    }
  }

  /** Any text that is the encoding of x once whitespace is removed, padded in full or with any number of '=',
      or not at all, decodes to x. */
  lemma RoundTrip(x: u8s, text: u8s, pads: u8s)
    requires Strip(text) == Encode(x) + pads && forall i | 0 <= i < |pads| :: pads[i] == PAD
    ensures Decode(text) == Some(x)
  {
    EncodeHasNoPad(x);
    StripCut(text);
    assert (Encode(x) + pads)[..|Encode(x)|] == Encode(x);
    CutAt(Strip(text), |Encode(x)|);
    SextetsOfSymbols(Bits(x), Encode(x));
    RegroupOfBits(x);
  }

  /** In particular the padded encoding of RFC 4648 itself. */
  lemma PaddedRoundTrip(x: u8s)
    ensures Decode(Encode(x) + Padding(x)) == Some(x)
  {
    var t := Encode(x) + Padding(x);
    NoSpaceNoStrip(t) by {
      var b := Bits(x);
      forall i | 0 <= i < |t| ensures !IsSpace(t[i]) {
        if i < |b| {
          SymbolProperties(b[i]);
        }
      }
    }
    RoundTrip(x, t, Padding(x));
  }

  lemma {:induction false} NoSpaceNoStrip(t: u8s)
    requires forall i | 0 <= i < |t| :: !IsSpace(t[i])
    ensures Strip(t) == t
  {
    if t != [] {
      NoSpaceNoStrip(t[..|t| - 1]);
    }
  }

  lemma {:induction false} RegroupLength(b: u8s)
    ensures |Regroup(b)| == 3 * |b| / 4
  {
    if |b| >= 4 {
      RegroupLength(b[4..]);
    }
  }

  /** An input is accepted when every byte before the first '=' is whitespace or in the alphabet, and then n alphabet
      characters make 3n/4 bytes, rounded down. */
  lemma AcceptedLength(input: u8s)
    ensures var t := Strip(Cut(input));
            && (Decode(input).Some? <==> AllSymbols(t))
            && (Decode(input).Some? ==> |Decode(input).value| == 3 * |t| / 4)
  {
    var t := Strip(Cut(input));
    if Sextets(t).Some? {
      RegroupLength(Sextets(t).value);
    }
  }

  /** The low bits of symbol i of n that Regroup drops: in a last group of two or three. */
  function SpareBits(n: nat, i: nat): bv8 {
    if i + 1 == n && n % 4 == 2 then 4 else if i + 1 == n && n % 4 == 3 then 2 else 0
  }

  predicate SameBut(a: bv8, b: bv8, spare: bv8)
    requires spare <= 4
  {
    a >> spare == b >> spare
  }

  predicate SameAt(b: u8s, c: u8s, i: nat)
    requires i < |b| && i < |c|
  {
    SameBut(b[i], c[i], SpareBits(|c|, i))
  }

  /** b is c but for spare bits at the end, or with one symbol too many after full groups. */
  predicate SameUpToSpare(b: u8s, c: u8s) {
    && (|b| == |c| || (|c| % 4 == 0 && |b| == |c| + 1))
    && forall i: nat | i < |c| :: SameAt(b, c, i)
  }

  lemma LeadIs(p: bv8, q: bv8, a: bv8)
    requires p < 64 && q < 64
    ensures Lead(p, q) == a <==> p == Top(a) && q >> 4 == a & 3
  {
  }

  lemma MidIs(q: bv8, r: bv8, b: bv8)
    requires q < 64 && r < 64
    ensures Mid(q, r) == b <==> q & 15 == b >> 4 && r >> 2 == b & 15
  {
  }

  lemma LastIs(r: bv8, s: bv8, c: bv8)
    requires r < 64 && s < 64
    ensures Last(r, s) == c <==> r & 3 == c >> 6 && s == Low(c)
  {
  }

  lemma AcrossIs(q: bv8, a: bv8, b: bv8)
    requires q < 64
    ensures q == Across(a, b) <==> q >> 4 == a & 3 && q & 15 == b >> 4
    ensures SameBut(q, Across(a, 0), 4) <==> q >> 4 == a & 3
  {
  }

  lemma OverIs(r: bv8, b: bv8, c: bv8)
    requires r < 64
    ensures r == Over(b, c) <==> r >> 2 == b & 15 && r & 3 == c >> 6
    ensures SameBut(r, Over(b, 0), 2) <==> r >> 2 == b & 15
  {
  }

  lemma GroupIsBits(p: bv8, q: bv8, r: bv8, s: bv8, a: bv8, b: bv8, c: bv8)
    requires p < 64 && q < 64 && r < 64 && s < 64
    ensures Lead(p, q) == a && Mid(q, r) == b && Last(r, s) == c
            <==> p == Top(a) && q == Across(a, b) && r == Over(b, c) && s == Low(c)
    ensures Lead(p, q) == a && Mid(q, r) == b <==> p == Top(a) && q == Across(a, b) && SameBut(r, Over(b, 0), 2)
    ensures Lead(p, q) == a <==> p == Top(a) && SameBut(q, Across(a, 0), 4)
  {
    hide *;
    LeadIs(p, q, a);
    MidIs(q, r, b);
    LastIs(r, s, c);
    AcrossIs(q, a, b);
    OverIs(r, b, c);
  }

  lemma NoSpare(a: bv8, b: bv8)
    ensures SameBut(a, b, 0) <==> a == b
  {
  }

  lemma SameAtGroup(g: u8s, b: u8s, h: u8s, c: u8s, i: nat)
    requires |g| == |h| == 4 && i < |g + b| && i < |h + c| && (i >= 4 ==> i - 4 < |b| && i - 4 < |c|)
    ensures SameAt(g + b, h + c, i) <==> if i < 4 then g[i] == h[i] else SameAt(b, c, i - 4)
  {
    if i < 4 {
      NoSpare(g[i], h[i]);
    } else {
      assert (g + b)[i] == b[i - 4] && (h + c)[i] == c[i - 4];
    }
  }

  lemma SameAfterGroup(g: u8s, b: u8s, h: u8s, c: u8s)
    requires |g| == |h| == 4
    ensures SameUpToSpare(g + b, h + c) <==> g == h && SameUpToSpare(b, c)
  {
    hide SameAt;
    if |b| == |c| || (|c| % 4 == 0 && |b| == |c| + 1) {
      forall i: nat | i < |h + c|
        ensures SameAt(g + b, h + c, i) <==> if i < 4 then g[i] == h[i] else SameAt(b, c, i - 4)
      {
        SameAtGroup(g, b, h, c, i);
      }
      if SameUpToSpare(g + b, h + c) {
        forall i: nat | i < |c| ensures SameAt(b, c, i) {
          assert SameAt(g + b, h + c, i + 4);
        }
        assert forall i: nat | i < 4 :: SameAt(g + b, h + c, i) ==> g[i] == h[i];
      }
    }
  }

  lemma RegroupShort(b: u8s, x: u8s)
    requires (forall i | 0 <= i < |b| :: b[i] < 64) && (|b| < 4 || |x| < 3)
    ensures Regroup(b) == x <==> SameUpToSpare(b, Bits(x))
  {
    hide Lead, Mid, Last, Top, Across, Over, Low, SameBut;
    RegroupLength(b);
    BitsLength(x);
    var c := Bits(x);
    if |b| == |c| == 2 {
      GroupIsBits(b[0], b[1], 0, 0, x[0], 0, 0);
      assert SameUpToSpare(b, c) <==> SameAt(b, c, 0) && SameAt(b, c, 1);
      NoSpare(b[0], c[0]);
    } else if |b| == |c| == 3 {
      GroupIsBits(b[0], b[1], b[2], 0, x[0], x[1], 0);
      assert SameUpToSpare(b, c) <==> SameAt(b, c, 0) && SameAt(b, c, 1) && SameAt(b, c, 2);
      NoSpare(b[0], c[0]);
      NoSpare(b[1], c[1]);
    }
  }

  lemma {:induction false} BitsLength(x: u8s)
    ensures |x| >= 3 ==> |Bits(x)| >= 4
    ensures |x| < 3 ==> |Bits(x)| == if x == [] then 0 else |x| + 1
  {
  }

  /** The first four sextets, the three bytes they make, and the sextets of the first three bytes. */
  function Group(b: u8s): (r: u8s)
    requires |b| >= 4
    ensures |r| == 4
  {
    [b[0], b[1], b[2], b[3]]
  }

  function Bytes(b: u8s): (r: u8s)
    requires |b| >= 4
    ensures |r| == 3
  {
    [Lead(b[0], b[1]), Mid(b[1], b[2]), Last(b[2], b[3])]
  }

  function GroupOf(x: u8s): (r: u8s)
    requires |x| >= 3
    ensures |r| == 4
  {
    [Top(x[0]), Across(x[0], x[1]), Over(x[1], x[2]), Low(x[2])]
  }

  lemma GroupExactly(b: u8s, x: u8s)
    requires |b| >= 4 && |x| >= 3 && forall i | 0 <= i < |b| :: b[i] < 64
    ensures Group(b) == GroupOf(x) <==> Bytes(b)[0] == x[0] && Bytes(b)[1] == x[1] && Bytes(b)[2] == x[2]
  {
    hide Lead, Mid, Last, Top, Across, Over, Low;
    GroupIsBits(b[0], b[1], b[2], b[3], x[0], x[1], x[2]);
  }

  lemma {:induction false} RegroupExactly(b: u8s, x: u8s)
    requires forall i | 0 <= i < |b| :: b[i] < 64
    ensures Regroup(b) == x <==> SameUpToSpare(b, Bits(x))
  {
    if |b| >= 4 && |x| >= 3 {
      var g, h, y := Group(b), GroupOf(x), Bytes(b);
      assert b == g + b[4..];
      RegroupFour(g, b[4..]);
      BitsOfThree(x);
      GroupExactly(b, x);
      hide SameUpToSpare, Regroup, Bits, Group, GroupOf, Bytes;
      RegroupExactly(b[4..], x[3..]);
      SameAfterGroup(g, b[4..], h, Bits(x[3..]));
      SplitEquality(y, Regroup(b[4..]), x);
    } else {
      RegroupShort(b, x);
    }
  }

  lemma BitsOfThree(x: u8s)
    requires |x| >= 3
    ensures Bits(x) == GroupOf(x) + Bits(x[3..])
  {
  }

  lemma SplitEquality(y: u8s, rest: u8s, x: u8s)
    requires |y| == 3 <= |x|
    ensures y + rest == x <==> y[0] == x[0] && y[1] == x[1] && y[2] == x[2] && rest == x[3..]
  {
    if y[0] == x[0] && y[1] == x[1] && y[2] == x[2] && rest == x[3..] {
      assert x == [x[0], x[1], x[2]] + x[3..];
    }
  }

  /** Texts that decode to x: symbols that spell its bits, whatever the spare bits, whitespace anywhere, one symbol more
      after a full last group, and anything at all after the first '='. */
  lemma DecodesExactly(text: u8s, x: u8s)
    ensures Decode(text) == Some(x)
            <==> Sextets(Strip(Cut(text))).Some? && SameUpToSpare(Sextets(Strip(Cut(text))).value, Bits(x))
  {
    if Sextets(Strip(Cut(text))).Some? {
      RegroupExactly(Sextets(Strip(Cut(text))).value, x);
    }
  }

  // ---------------------------------------------------------------- the loop

  lemma {:induction false} RegroupAppend(a: u8s, q: nat, b: u8s)
    requires |a| == 4 * q
    ensures Regroup(a + b) == Regroup(a) + Regroup(b)
    decreases q
  {
    hide Lead, Mid, Last;
    if q == 0 {
      assert a + b == b;
    } else {
      RegroupAppend(a[4..], q - 1, b);
      assert (a + b)[4..] == a[4..] + b;
    }
  }

  lemma SextetsNone(t: u8s, u: u8s)
    requires Sextets(t).None? && |t| <= |u| && u[..|t|] == t
    ensures Sextets(u).None?
  {
    var i :| 0 <= i < |t| && Position(t[i]).None?;
    assert u[i] == t[i];
  }

  /** After i bytes without a '=', the sextets read are q full groups and a part of one. */
  ghost predicate ReadSoFar(input: u8s, i: nat, done: u8s, q: nat, part: u8s) {
    && i <= |input| && NoPad(input[..i]) && |done| == 4 * q && |part| < 4
    && Sextets(Strip(input[..i])) == Some(done + part)
  }

  lemma ReadSpace(input: u8s, i: nat, done: u8s, q: nat, part: u8s)
    requires ReadSoFar(input, i, done, q, part) && i < |input| && IsSpace(input[i]) && input[i] != PAD
    ensures ReadSoFar(input, i + 1, done, q, part)
  {
    assert input[..i + 1][..i] == input[..i];
  }

  lemma ReadSymbol(input: u8s, i: nat, done: u8s, q: nat, part: u8s, v: bv8)
    requires ReadSoFar(input, i, done, q, part) && i < |input| && !IsSpace(input[i]) && input[i] != PAD
    requires Position(input[i]) == Some(v)
    ensures if |part| < 3 then ReadSoFar(input, i + 1, done, q, part + [v])
            else ReadSoFar(input, i + 1, done + (part + [v]), q + 1, [])
  {
    assert input[..i + 1][..i] == input[..i];
    assert done + part + [v] == done + (part + [v]) == done + (part + [v]) + [];
  }

  lemma ReadAll(input: u8s, i: nat, done: u8s, q: nat, part: u8s)
    requires ReadSoFar(input, i, done, q, part) && (i == |input| || input[i] == PAD)
    ensures Decode(input) == Some(Regroup(done + part))
  {
    CutAt(input, i);
  }

  /** rust: base64_decode */
  method Base64Decode(input: u8s) returns (r: Option<u8s>)
    ensures r == Decode(input)
  {
    hide Lead, Mid, Last, Position, Decode, ReadSoFar, Regroup;
    var result: u8s := [];
    var buf := new bv8[4](_ => 0);
    var idx := 0;
    ghost var done: u8s, q: nat := [], 0;
    var i := 0;
    ReadNone(input);
    while i < |input|
      invariant 0 <= i <= |input| && 0 <= idx < 4 && |done| == 4 * q
      invariant ReadSoFar(input, i, done, q, buf[..idx])
      invariant result == Regroup(done)
    {
      var c := input[i];
      if c == PAD { break; }
      if IsSpace(c) {
        ReadSpace(input, i, done, q, buf[..idx]);
        i := i + 1;
        continue;
      }
      var val := Position(c);
      if val.None? {
        Refused(input, i, done, q, buf[..idx]);
        return None;
      }
      ReadSymbol(input, i, done, q, buf[..idx], val.value);
      ghost var part := buf[..idx] + [val.value];
      buf[idx] := val.value;
      idx := idx + 1;
      assert buf[..idx] == part;
      if idx == 4 {
        result := result + [Lead(buf[0], buf[1])];
        result := result + [Mid(buf[1], buf[2])];
        result := result + [Last(buf[2], buf[3])];
        GroupOfFour(done, q, part);
        done, q := done + part, q + 1;
        idx := 0;
        assert buf[..idx] == [];
      }
      i := i + 1;
    }
    ReadAll(input, i, done, q, buf[..idx]);
    Remainder(done, q, buf[..idx]);
    if idx == 2 {
      result := result + [Lead(buf[0], buf[1])];
    } else if idx == 3 {
      result := result + [Lead(buf[0], buf[1])];
      result := result + [Mid(buf[1], buf[2])];
    }
    return Some(result);
  }

  lemma ReadNone(input: u8s)
    ensures ReadSoFar(input, 0, [], 0, []) && Regroup([]) == []
  {
    var none: u8s := [];
    assert input[..0] == none && Sextets(none) == Some(none) && none + none == none;
  }

  lemma Remainder(done: u8s, q: nat, b: u8s)
    requires |done| == 4 * q && |b| < 4
    ensures Regroup(done + b) ==
            if |b| == 2 then Regroup(done) + [Lead(b[0], b[1])]
            else if |b| == 3 then Regroup(done) + [Lead(b[0], b[1])] + [Mid(b[1], b[2])]
            else Regroup(done)
  {
    RegroupAppend(done, q, b);
  }

  lemma GroupOfFour(done: u8s, q: nat, b: u8s)
    requires |done| == 4 * q && |b| == 4
    ensures Regroup(done + b)
            == Regroup(done) + [Lead(b[0], b[1])] + [Mid(b[1], b[2])] + [Last(b[2], b[3])]
  {
    hide Lead, Mid, Last;
    RegroupAppend(done, q, b);
    assert b[4..] == [];
  }

  lemma PadNotBefore(t: u8s, i: nat, n: nat)
    requires i <= |t| && NoPad(t[..i]) && n <= |t| && (n == |t| || t[n] == PAD)
    ensures i <= n
  {
    assert forall k | 0 <= k < i :: t[..i][k] == t[k];
  }

  /** One byte outside the alphabet before the first '=' refuses the whole input. */
  lemma Refused(input: u8s, i: nat, done: u8s, q: nat, part: u8s)
    requires ReadSoFar(input, i, done, q, part)
    requires i < |input| && input[i] != PAD && !IsSpace(input[i]) && Position(input[i]).None?
    ensures Decode(input) == None
  {
    var n := CutIsPrefix(input);
    PadNotBefore(input, i, n);
    var t := input[..i + 1];
    assert t[..i] == input[..i];
    assert Sextets(Strip(t)).None?;
    assert input[..n] == t + input[i + 1..n];
    StripConcat(t, input[i + 1..n]);
    SextetsNone(Strip(t), Strip(input[..n]));
  }
}
