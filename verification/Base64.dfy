/**
 The plate's base64 decoder (section 4 of RFC 4648): standard alphabet,
 padding and white space skipped.
 */
module Base64 {
  import opened Bytes

  function Val(c: byte): Option<nat> {
    if 65 <= c <= 90 then Some(c - 65)
    else if 97 <= c <= 122 then Some(c - 97 + 26)
    else if 48 <= c <= 57 then Some(c - 48 + 52)
    else if c == 43 then Some(62)
    else if c == 47 then Some(63)
    else None
  }

  /** The standard alphabet. */
  function Sym(v: nat): (c: byte)
    requires v < 64
    ensures Val(c) == Some(v) && !Skipped(c)
  {
    if v < 26 then 65 + v else if v < 52 then 97 + v - 26 else if v < 62 then 48 + v - 52
    else if v == 62 then 43 else 47
  }

  /** ASCII white space and the padding character. */
  predicate Skipped(c: byte) { c == 32 || c == 9 || c == 10 || c == 12 || c == 13 || c == 61 }

  /** The characters that carry data. */
  function Data(s: seq<byte>): seq<byte> {
    if s == [] then [] else (if Skipped(s[0]) then [] else [s[0]]) + Data(s[1..])
  }

  /** The bytes still owed by `n` collected characters with value `acc`; one character alone is an error. */
  function Tail(acc: nat, n: nat): Option<seq<byte>> {
    if n == 0 then Some([])
    else if n == 2 then Some([acc / 16 % 256])
    else if n == 3 then Some([acc / 1024 % 256, acc / 4 % 256])
    else None
  }

  function Triple(acc: nat): seq<byte> { [acc / 65536 % 256, acc / 256 % 256, acc % 256] }

  function Prepend(p: seq<byte>, r: Option<seq<byte>>): (q: Option<seq<byte>>)
    ensures p == [] ==> q == r
  {
    if r.None? then None
    else
      assert p == [] ==> p + r.value == r.value;
      Some(p + r.value)
  }

  /** The decoder from `n` collected characters with value `acc`. */
  function DecodeFrom(s: seq<byte>, acc: nat, n: nat): Option<seq<byte>>
    decreases |s|
  {
    if s == [] then Tail(acc, n)
    else if Skipped(s[0]) then DecodeFrom(s[1..], acc, n)
    else if Val(s[0]).None? then None
    else
      var acc' := acc * 64 + Val(s[0]).value;
      if n == 3 then Prepend(Triple(acc'), DecodeFrom(s[1..], 0, 0)) else DecodeFrom(s[1..], acc', n + 1)
  }

  function Decode(s: seq<byte>): Option<seq<byte>> { DecodeFrom(s, 0, 0) }

  /** `b64_decode`, with its accumulator loop. */
  method DecodeLoop(s: seq<byte>) returns (r: Option<seq<byte>>)
    ensures r == Decode(s)
  {
    var out: seq<byte> := [];
    var acc, n := 0, 0;
    assert s[0..] == s;
    for i := 0 to |s|
      invariant 0 <= acc && 0 <= n <= 3
      invariant Decode(s) == Prepend(out, DecodeFrom(s[i..], acc, n))
    {
      ghost var rest := s[i..];
      assert rest[0] == s[i] && rest[1..] == s[i + 1..];
      if Skipped(s[i]) { continue; }
      var v := Val(s[i]);
      if v.None? { return None; }
      acc, n := acc * 64 + v.value, n + 1;
      if n == 4 {
        ghost var was := out;
        out := out + Triple(acc);
        assert forall t :: was + (Triple(acc) + t) == out + t;
        acc, n := 0, 0;
      }
    }
    var last := Tail(acc, n);
    assert s[|s|..] == [];
    r := Prepend(out, last);
  }

  /** The characters RFC 4648 gives a byte string, without padding. */
  function Symbols(x: seq<byte>): seq<byte> {
    if x == [] then []
    else if |x| == 1 then [Sym(x[0] / 4), Sym(x[0] % 4 * 16)]
    else if |x| == 2 then [Sym(x[0] / 4), Sym(x[0] % 4 * 16 + x[1] / 16), Sym(x[1] % 16 * 4)]
    else
      [Sym(x[0] / 4), Sym(x[0] % 4 * 16 + x[1] / 16), Sym(x[1] % 16 * 4 + x[2] / 64), Sym(x[2] % 64)]
      + Symbols(x[3..])
  }

  lemma {:induction false} SkipsAway(s: seq<byte>, acc: nat, n: nat)
    ensures DecodeFrom(s, acc, n) == DecodeFrom(Data(s), acc, n)
    decreases |s|
  {
    if s != [] {
      var d := Data(s);
      if Skipped(s[0]) {
        SkipsAway(s[1..], acc, n);
        assert d == Data(s[1..]);
      } else {
        assert d[0] == s[0] && d[1..] == Data(s[1..]);
        if Val(s[0]).Some? {
          var acc' := acc * 64 + Val(s[0]).value;
          if n == 3 { SkipsAway(s[1..], 0, 0); } else { SkipsAway(s[1..], acc', n + 1); }
        }
      }
    }
  }

  /** The bits of two and three bytes, cut into groups of six and put together again. */
  lemma TwoBytes(a: byte, b: byte)
    ensures (a / 4 * 64 + (a % 4 * 16 + b / 16)) * 64 + b % 16 * 4 == a * 1024 + b * 4
  {
  }

  lemma ThreeBytes(a: byte, b: byte, c: byte)
    ensures ((a / 4 * 64 + (a % 4 * 16 + b / 16)) * 64 + (b % 16 * 4 + c / 64)) * 64 + c % 64
            == a * 65536 + b * 256 + c
  {
    TwoBytes(a, b);
  }

  lemma Digit(q: nat, r: byte)
    ensures (q * 256 + r) / 256 == q && (q * 256 + r) % 256 == r as int
  {
  }

  lemma TripleOf(a: byte, b: byte, c: byte, v: nat)
    requires v == a * 65536 + b * 256 + c
    ensures Triple(v) == [a, b, c]
  {
    Digit(a * 256 + b, c);
    Digit(a, b);
    assert v == (a * 256 + b) * 256 + c && v / 65536 == v / 256 / 256;
  }

  lemma TailOfOne(a: byte)
    ensures Tail(a / 4 * 64 + a % 4 * 16, 2) == Some([a])
  {
    assert a / 4 * 64 + a % 4 * 16 == a * 16;
  }

  lemma TailOfTwo(a: byte, b: byte, v: nat)
    requires v == a * 1024 + b * 4
    ensures Tail(v, 3) == Some([a, b])
  {
    Digit(a, b);
    assert v / 4 == a * 256 + b && v / 1024 == v / 4 / 256;
  }

  lemma Regroup(a: byte, b: byte, c: byte)
    ensures Tail(a / 4 * 64 + a % 4 * 16, 2) == Some([a])
    ensures Tail((a / 4 * 64 + (a % 4 * 16 + b / 16)) * 64 + b % 16 * 4, 3) == Some([a, b])
    ensures Triple(((a / 4 * 64 + (a % 4 * 16 + b / 16)) * 64 + (b % 16 * 4 + c / 64)) * 64 + c % 64) == [a, b, c]
  {
    hide Triple, Tail;
    TailOfOne(a);
    TwoBytes(a, b);
    TailOfTwo(a, b, (a / 4 * 64 + (a % 4 * 16 + b / 16)) * 64 + b % 16 * 4);
    ThreeBytes(a, b, c);
    TripleOf(a, b, c, ((a / 4 * 64 + (a % 4 * 16 + b / 16)) * 64 + (b % 16 * 4 + c / 64)) * 64 + c % 64);
  }

  lemma {:induction false} DecodeSymbols(x: seq<byte>)
    ensures Decode(Symbols(x)) == Some(x)
  {
    hide Decode, Sym, Triple, Tail;
    var s := Symbols(x);
    if x == [] {
      assert Decode([]) == Some([]) by { DecodeNothing(); }
    } else if |x| == 1 {
      FewSymbols(s);
      Regroup(x[0], 0, 0);
      assert x == [x[0]];
    } else if |x| == 2 {
      FewSymbols(s);
      Regroup(x[0], x[1], 0);
      assert x == [x[0], x[1]];
    } else {
      FourSymbols(s);
      Regroup(x[0], x[1], x[2]);
      DecodeSymbols(x[3..]);
      assert s[4..] == Symbols(x[3..]);
      assert x == [x[0], x[1], x[2]] + x[3..];
    }
  }

  lemma DecodeNothing()
    ensures Decode([]) == Some([])
  {
  }

  function V(c: byte): nat { if Val(c).Some? then Val(c).value else 0 }

  lemma FewSymbols(s: seq<byte>)
    requires 2 <= |s| <= 3 && forall i :: 0 <= i < |s| ==> Val(s[i]).Some? && !Skipped(s[i])
    ensures Decode(s) == Tail(if |s| == 2 then V(s[0]) * 64 + V(s[1]) else (V(s[0]) * 64 + V(s[1])) * 64 + V(s[2]), |s|)
  {
    var a := V(s[0]);
    var b := a * 64 + V(s[1]);
    assert DecodeFrom(s, 0, 0) == DecodeFrom(s[1..], a, 1);
    assert DecodeFrom(s[1..], a, 1) == DecodeFrom(s[2..], b, 2) by { assert s[1..][1..] == s[2..]; }
    if |s| == 3 {
      assert DecodeFrom(s[2..], b, 2) == DecodeFrom(s[3..], b * 64 + V(s[2]), 3) by { assert s[2..][1..] == s[3..]; }
    }
  }

  lemma FourSymbols(s: seq<byte>)
    requires |s| >= 4 && forall i :: 0 <= i < 4 ==> Val(s[i]).Some? && !Skipped(s[i])
    ensures Decode(s) == Prepend(Triple(((V(s[0]) * 64 + V(s[1])) * 64 + V(s[2])) * 64 + V(s[3])), Decode(s[4..]))
  {
    var a := V(s[0]);
    var b := a * 64 + V(s[1]);
    var c := b * 64 + V(s[2]);
    var d := c * 64 + V(s[3]);
    assert DecodeFrom(s, 0, 0) == DecodeFrom(s[1..], a, 1);
    assert DecodeFrom(s[1..], a, 1) == DecodeFrom(s[2..], b, 2) by { assert s[1..][1..] == s[2..]; }
    assert DecodeFrom(s[2..], b, 2) == DecodeFrom(s[3..], c, 3) by { assert s[2..][1..] == s[3..]; }
    assert DecodeFrom(s[3..], c, 3) == Prepend(Triple(d), DecodeFrom(s[4..], 0, 0)) by { assert s[3..][1..] == s[4..]; }
  }

  /** Any text whose data characters are those of `x` decodes to `x`, with or
      without padding and white space anywhere. */
  lemma RoundTrip(s: seq<byte>, x: seq<byte>)
    requires Data(s) == Symbols(x)
    ensures Decode(s) == Some(x)
  {
    SkipsAway(s, 0, 0);
    DecodeSymbols(x);
  }

  /** The alphabet of table 1 of RFC 4648: A to Z, a to z, 0 to 9, `+` and `/`. */
  lemma Alphabet(v: nat)
    requires v < 64
    ensures Sym(v) == if v < 26 then 'A' as int + v else if v < 52 then 'a' as int + (v - 26)
                      else if v < 62 then '0' as int + (v - 52) else if v == 62 then '+' as int else '/' as int
  {
  }

  /** `n` padding characters `=`. */
  function Padding(n: nat): (p: seq<byte>)
    ensures |p| == n && forall i :: 0 <= i < n ==> p[i] == 61
  {
    seq(n, _ => 61)
  }

  /** The form RFC 4648 writes: padded to a multiple of four characters. */
  function Padded(x: seq<byte>): (s: seq<byte>)
    ensures |s| % 4 == 0
  {
    Symbols(x) + Padding((4 - |Symbols(x)| % 4) % 4)
  }

  lemma {:induction false} SymbolsAreData(x: seq<byte>)
    ensures forall i :: 0 <= i < |Symbols(x)| ==> !Skipped(Symbols(x)[i])
    decreases |x|
  {
    if |x| > 2 { SymbolsAreData(x[3..]); }
  }

  lemma {:induction false} DataOfParts(a: seq<byte>, b: seq<byte>)
    ensures Data(a + b) == Data(a) + Data(b)
    decreases |a|
  {
    hide Data;
    if a == [] {
      assert a + b == b && Data([]) == [] by { NoData(); }
    } else {
      DataOfParts(a[1..], b);
      DataCons(a);
      DataCons(a + b);
      assert (a + b)[1..] == a[1..] + b;
    }
  }

  lemma NoData()
    ensures Data([]) == []
  {
  }

  lemma DataCons(s: seq<byte>)
    requires s != []
    ensures Data(s) == if Skipped(s[0]) then Data(s[1..]) else [s[0]] + Data(s[1..])
  {
    assert [] + Data(s[1..]) == Data(s[1..]);
  }

  lemma {:induction false} AllData(s: seq<byte>)
    ensures (forall i :: 0 <= i < |s| ==> !Skipped(s[i])) ==> Data(s) == s
    ensures (forall i :: 0 <= i < |s| ==> Skipped(s[i])) ==> Data(s) == []
    decreases |s|
  {
    if s != [] { AllData(s[1..]); }
  }

  lemma PaddedData(x: seq<byte>)
    ensures Data(Padded(x)) == Symbols(x)
  {
    hide Symbols;
    var pad := Padding((4 - |Symbols(x)| % 4) % 4);
    SymbolsAreData(x);
    AllData(Symbols(x));
    AllData(pad);
    DataOfParts(Symbols(x), pad);
    assert Symbols(x) + [] == Symbols(x);
  }

  /** Standard base64, padding and all, is decoded to what was encoded, in one
      piece or broken anywhere by spaces, tabs, form feeds or line ends. */
  lemma PaddedRoundTrip(x: seq<byte>, a: seq<byte>, gap: seq<byte>, b: seq<byte>)
    requires a + b == Padded(x)
    requires forall i :: 0 <= i < |gap| ==> gap[i] == 32 || gap[i] == 9 || gap[i] == 10 || gap[i] == 12 || gap[i] == 13
    ensures Decode(a + gap + b) == Some(x) && Decode(Padded(x)) == Some(x)
  {
    hide Decode, Symbols, Padded;
    PaddedData(x);
    AllData(gap);
    DataOfParts(a + gap, b);
    DataOfParts(a, gap);
    DataOfParts(a, b);
    assert Data(a) + [] + Data(b) == Data(a) + Data(b);
    RoundTrip(Padded(x), x);
    RoundTrip(a + gap + b, x);
  }

  /** Which characters are passed over: before four letters they change
      nothing, where any other leaves one too many or is foreign. */
  lemma PassedOver(c: byte)
    ensures Decode([c, 65, 65, 65, 65]).Some? <==> c == 9 || c == 10 || c == 12 || c == 13 || c == 32 || c == 61
  {
    hide DecodeFrom;
    var s: seq<byte> := [c, 65, 65, 65, 65];
    Accepts(s, 0, 0);
    AllData(s[1..]);
    if Skipped(c) {
      assert Data(s) == [] + Data(s[1..]);
    } else {
      assert Data(s) == [c] + Data(s[1..]);
    }
    assert Val(65).Some? && s[0] == c;
  }

  predicate AllKnown(s: seq<byte>) { forall i :: 0 <= i < |s| ==> Skipped(s[i]) || Val(s[i]).Some? }

  lemma KnownCons(s: seq<byte>)
    ensures AllKnown(s) <==> s == [] || ((Skipped(s[0]) || Val(s[0]).Some?) && AllKnown(s[1..]))
  {
    if s != [] { assert s == [s[0]] + s[1..]; }
  }

  /** The decoder refuses exactly the texts with a foreign character or with
      one data character left over. */
  lemma {:induction false} Accepts(s: seq<byte>, acc: nat, n: nat)
    requires n <= 3
    ensures DecodeFrom(s, acc, n).Some? <==> AllKnown(s) && (n + |Data(s)|) % 4 != 1
    decreases |s|
  {
    hide AllKnown, Data, Skipped, Tail;
    KnownCons(s);
    if s == [] {
      NoData();
      TailExact(acc, n);
    } else {
      DataCons(s);
      if Skipped(s[0]) {
        Accepts(s[1..], acc, n);
      } else if Val(s[0]).Some? {
        var acc' := acc * 64 + Val(s[0]).value;
        if n == 3 { Accepts(s[1..], 0, 0); } else { Accepts(s[1..], acc', n + 1); }
      }
    }
  }

  lemma TailExact(acc: nat, n: nat)
    requires n <= 3
    ensures Tail(acc, n).Some? <==> n != 1
  {
  }
}
