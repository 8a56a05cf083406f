/** What the string operations do to any input, in terms that do not mention how they do it. */
module TextLaws {
  import opened Bytes
  import opened Text

  // -------------------------------------------------------------- prefixes

  /** `s` is `p`, some number of times over. */
  predicate Repeats(s: seq<byte>, p: seq<byte>)
    requires p != []
  {
    s == [] || (p <= s && Repeats(s[|p|..], p))
  }

  /** Exactly the leading repetitions of `p` go. */
  lemma {:induction false} TrimStartExact(s: seq<byte>, p: seq<byte>)
    requires p != []
    ensures var r := TrimStart(s, p);
            var n := |s| - |r|;
            n >= 0 && r == s[n..] && Repeats(s[..n], p) && !(p <= r)
    decreases |s|
  {
    if p <= s {
      var t, r := s[|p|..], TrimStart(s, p);
      TrimStartExact(t, p);
      PrefixBefore(s, p, |s| - |r|);
    } else {
      assert s[..0] == [] && s[0..] == s;
    }
  }

  lemma PrefixBefore(s: seq<byte>, p: seq<byte>, n: nat)
    requires p != [] && p <= s && |p| <= n <= |s|
    ensures p <= s[..n] && s[..n][|p|..] == s[|p|..][..n - |p|] && s[|p|..][n - |p|..] == s[n..]
  {
  }

  // ----------------------------------------------------------- white space

  /** The UTF-8 encoding of a character of the basic plane. */
  function Utf8(cp: nat): seq<byte>
    requires cp < 0x1_0000
  {
    if cp < 0x80 then [cp]
    else if cp < 0x800 then [0xC0 + cp / 64, 0x80 + cp % 64]
    else [0xE0 + cp / 4096, 0x80 + cp / 64 % 64, 0x80 + cp % 64]
  }

  /** The characters with the White_Space property. */
  predicate Space(cp: nat) {
    || 9 <= cp <= 13 || cp == 0x20 || cp == 0x85 || cp == 0xA0 || cp == 0x1680 || 0x2000 <= cp <= 0x200A
    || cp == 0x2028 || cp == 0x2029 || cp == 0x202F || cp == 0x205F || cp == 0x3000
  }

  lemma WhiteExact(c: seq<byte>)
    ensures White(c) <==> exists cp: nat :: cp < 0x1_0000 && Space(cp) && c == Utf8(cp)
  {
    hide White, Space, Utf8;
    if White(c) { WhiteIsSpace(c); }
    if cp: nat :| cp < 0x1_0000 && Space(cp) && c == Utf8(cp) { SpaceIsWhite(cp); }
  }

  lemma SpaceIsWhite(cp: nat)
    requires cp < 0x1_0000 && Space(cp)
    ensures White(Utf8(cp))
  {
    if 0x2000 <= cp < 0x2040 {
      assert cp / 4096 == 2 && cp / 64 == 128 && cp % 64 == cp - 0x2000;
      assert Utf8(cp) == [0xE2, 0x80, 0x80 + (cp - 0x2000)];
      assert Utf8(cp)[..2] == [0xE2, 0x80];
    }
  }

  lemma WhiteIsSpace(c: seq<byte>)
    requires White(c)
    ensures exists cp: nat :: cp < 0x1_0000 && Space(cp) && c == Utf8(cp)
  {
    var cp := if |c| == 1 then c[0] as int
              else if |c| == 2 then c[1] as int
              else if c[0] == 0xE1 then 0x1680 else if c[0] == 0xE3 then 0x3000
              else if c[1] == 0x81 then 0x205F else 0x2000 + (c[2] as int - 0x80);
    if |c| == 3 && c[0] == 0xE2 && c[1] == 0x80 {
      assert c[..2] == [0xE2, 0x80] && c == [0xE2, 0x80, c[2]];
      assert cp / 4096 == 2 && cp / 64 == 128 && cp % 64 == cp - 0x2000;
    }
    assert Space(cp) && c == Utf8(cp);
  }

  function Concat(cs: seq<seq<byte>>): seq<byte> { if cs == [] then [] else cs[0] + Concat(cs[1..]) }

  predicate AllWhite(cs: seq<seq<byte>>) { forall i :: 0 <= i < |cs| ==> White(cs[i]) }

  lemma {:induction false} ConcatSnoc(cs: seq<seq<byte>>, c: seq<byte>)
    ensures Concat(cs + [c]) == Concat(cs) + c
    decreases |cs|
  {
    if cs == [] {
      assert [c][1..] == [];
    } else {
      ConcatSnoc(cs[1..], c);
      assert (cs + [c])[1..] == cs[1..] + [c];
    }
  }

  lemma StartIsWhite(s: seq<byte>)
    ensures WhiteStart(s) > 0 ==> White(s[..WhiteStart(s)])
    ensures WhiteEnd(s) > 0 ==> White(s[|s| - WhiteEnd(s)..])
  {
    hide White;
  }

  lemma {:induction false} DropStartExact(s: seq<byte>) returns (cs: seq<seq<byte>>)
    ensures s == Concat(cs) + DropWhiteStart(s) && AllWhite(cs) && WhiteStart(DropWhiteStart(s)) == 0
    decreases |s|
  {
    hide WhiteStart, White;
    var k := WhiteStart(s);
    cs := [];
    if k > 0 {
      var more := DropStartExact(s[k..]);
      StartIsWhite(s);
      cs := [s[..k]] + more;
      assert cs[1..] == more && s == s[..k] + s[k..];
    }
  }

  lemma {:induction false} DropEndExact(s: seq<byte>) returns (cs: seq<seq<byte>>)
    ensures s == DropWhiteEnd(s) + Concat(cs) && AllWhite(cs) && WhiteEnd(DropWhiteEnd(s)) == 0
    decreases |s|
  {
    hide WhiteEnd, White;
    var k := WhiteEnd(s);
    cs := [];
    if k > 0 {
      var more := DropEndExact(s[..|s| - k]);
      StartIsWhite(s);
      cs := more + [s[|s| - k..]];
      ConcatSnoc(more, s[|s| - k..]);
      assert s == s[..|s| - k] + s[|s| - k..];
    }
  }

  /** What is left is the middle of the text: white-space characters before it
      and behind it, and none at its own ends. */
  lemma TrimExact(s: seq<byte>) returns (front: seq<seq<byte>>, back: seq<seq<byte>>)
    ensures s == Concat(front) + Trim(s) + Concat(back) && AllWhite(front) && AllWhite(back)
    ensures WhiteStart(Trim(s)) == 0 && WhiteEnd(Trim(s)) == 0
  {
    hide WhiteStart, WhiteEnd, White, Concat, DropWhiteEnd, DropWhiteStart;
    front := DropStartExact(s);
    back := DropEndExact(DropWhiteStart(s));
    assert DropWhiteStart(s) == Trim(s) + Concat(back);
    NoneAtStart(DropWhiteStart(s), Trim(s));
  }

  lemma NoneAtStart(t: seq<byte>, r: seq<byte>)
    requires WhiteStart(t) == 0 && r <= t
    ensures WhiteStart(r) == 0
  {
    hide White;
    if |r| >= 1 { assert r[..1] == t[..1]; }
    if |r| >= 2 { assert r[..2] == t[..2]; }
    if |r| >= 3 { assert r[..3] == t[..3]; }
  }

  // ----------------------------------------------------------------- lines

  /** A line ends at the first line feed, which takes one carriage return
      before it along; the next line begins right behind it. */
  lemma LineLaw(p: seq<byte>, rest: seq<byte>, i: nat)
    requires !Has(p, 10)
    ensures Line(p + [10] + rest, 0) == if p != [] && p[|p| - 1] == 13 then p[..|p| - 1] else p
    ensures Line(p + [10] + rest, i + 1) == Line(rest, i)
    ensures Line(p, 0) == p && Line(p, i + 1) == []
  {
    SplitPiece(p, rest);
    SplitWhole(p);
  }

  // ----------------------------------------------------------------- UTF-8

  /** Lossy decoding yields well-formed UTF-8, whatever it is given. */
  lemma {:induction false} LossyIsValid(s: seq<byte>)
    ensures ValidUtf8(Lossy(s))
    decreases |s|
  {
    if s != [] {
      var n := Fitting(s);
      LossyIsValid(s[n..]);
      if n == Width(s[0]) {
        assert Fitting(s[..n]) == n && s[..n][n..] == [];
        ValidConcat(s[..n], Lossy(s[n..]));
      } else {
        ReplacementValid();
        ValidConcat([0xEF, 0xBF, 0xBD], Lossy(s[n..]));
      }
    }
  }

  lemma ReplacementValid()
    ensures ValidUtf8([0xEF, 0xBF, 0xBD])
  {
    var r: seq<byte> := [0xEF, 0xBF, 0xBD];
    assert Fitting(r) == 3 && r[3..] == [];
  }

  /** A byte that starts nothing becomes U+FFFD by itself, and so does a
      character cut short, as one. */
  lemma LossyReplaces(rest: seq<byte>, b: byte)
    requires 0x80 <= b < 0xC2 || b >= 0xF5
    ensures Lossy([b] + rest) == [0xEF, 0xBF, 0xBD] + Lossy(rest)
    ensures Lossy([0xE2, 0x82, 0x41] + rest) == [0xEF, 0xBF, 0xBD] + Lossy([0x41] + rest)
  {
    var s := [b] + rest;
    assert Fitting(s) == 1 && s[1..] == rest;
    var t := [0xE2, 0x82, 0x41] + rest;
    assert Fitting(t) == 2 && t[2..] == [0x41] + rest;
  }

  lemma AsciiOne(b: byte, rest: seq<byte>)
    requires b < 0x80
    ensures Lossy([b] + rest) == [b] + Lossy(rest)
  {
    var s := [b] + rest;
    assert Fitting(s) == 1 && s[..1] == [b] && s[1..] == rest;
  }

  /** ASCII text passes unchanged, whatever follows it. */
  lemma {:induction false} AsciiKept(a: seq<byte>, rest: seq<byte>)
    requires forall i :: 0 <= i < |a| ==> a[i] < 0x80
    ensures Lossy(a + rest) == a + Lossy(rest)
    decreases |a|
  {
    hide Lossy;
    if a == [] {
      assert a + rest == rest && a + Lossy(rest) == Lossy(rest);
    } else {
      AsciiKept(a[1..], rest);
      AsciiOne(a[0], a[1..] + rest);
      assert [a[0]] + (a[1..] + rest) == a + rest && [a[0]] + (a[1..] + Lossy(rest)) == a + Lossy(rest);
    }
  }
}
