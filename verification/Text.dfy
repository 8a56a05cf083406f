/**
 The string operations the plate uses, on UTF-8 bytes: lossy decoding, lines,
 splitting and joining, and trimming.
 */
module Text {
  import opened Bytes

  const LF: byte := 10
  const CR: byte := 13
  const SEMICOLON: byte := 59
  const AT: byte := 64

  // ---------------------------------------------------------------- UTF-8

  predicate Continuation(b: byte) { 0x80 <= b <= 0xBF }

  /** The second bytes that may follow lead byte `lead` (table 3-7 of the Unicode standard). */
  predicate Second(lead: byte, b: byte) {
    (if lead == 0xE0 then 0xA0 else if lead == 0xF0 then 0x90 else 0x80) <= b
    <= (if lead == 0xED then 0x9F else if lead == 0xF4 then 0x8F else 0xBF)
  }

  /** Width announced by a lead byte; 0 for a byte that can start nothing. */
  function Width(lead: byte): nat {
    if lead < 0x80 then 1 else if 0xC2 <= lead <= 0xDF then 2
    else if 0xE0 <= lead <= 0xEF then 3 else if 0xF0 <= lead <= 0xF4 then 4 else 0
  }

  /** How many leading bytes of `s` fit the character its first byte announces. */
  function Fitting(s: seq<byte>): (n: nat)
    requires s != []
    ensures 1 <= n <= |s|
  {
    var w := Width(s[0]);
    if w < 2 || |s| < 2 || !Second(s[0], s[1]) then 1
    else if w < 3 || |s| < 3 || !Continuation(s[2]) then 2
    else if w < 4 || |s| < 4 || !Continuation(s[3]) then 3
    else 4
  }

  predicate ValidUtf8(s: seq<byte>) {
    s == [] || (Fitting(s) == Width(s[0]) && ValidUtf8(s[Fitting(s)..]))
  }

  /** `String::from_utf8_lossy`: each maximal broken piece becomes U+FFFD. */
  function Lossy(s: seq<byte>): seq<byte> {
    if s == [] then []
    else (if Fitting(s) == Width(s[0]) then s[..Fitting(s)] else [0xEF, 0xBF, 0xBD]) + Lossy(s[Fitting(s)..])
  }

  lemma {:induction false} LossyIsIdentity(s: seq<byte>)
    ensures ValidUtf8(s) ==> Lossy(s) == s
  {
    if s != [] { LossyIsIdentity(s[Fitting(s)..]); }
  }

  lemma {:induction false} ValidConcat(a: seq<byte>, b: seq<byte>)
    requires ValidUtf8(a) && ValidUtf8(b)
    ensures ValidUtf8(a + b)
  {
    if a == [] {
      assert a + b == b;
    } else {
      var n := Fitting(a);
      assert Fitting(a + b) == n;
      ValidConcat(a[n..], b);
      assert (a + b)[n..] == a[n..] + b;
    }
  }

  // ------------------------------------------------------ split and join

  predicate Has(s: seq<byte>, b: byte) { b in s }

  /** `str::split('\n')`: one piece more than there are line feeds. */
  function Split(s: seq<byte>): (ps: seq<seq<byte>>)
    ensures |ps| >= 1
    ensures forall i :: 0 <= i < |ps| ==> !Has(ps[i], LF)
    ensures forall b, i :: 0 <= i < |ps| && Has(ps[i], b) ==> Has(s, b)
  {
    if s == [] then [[]]
    else
      var rest := Split(s[1..]);
      var ps := if s[0] == LF then [[]] + rest else [[s[0]] + rest[0]] + rest[1..];
      assert forall b, i :: 0 <= i < |ps| && Has(ps[i], b) ==> Has(s, b) by {
        forall b, i | 0 <= i < |ps| && Has(ps[i], b) ensures Has(s, b) {
          assert Has(s[1..], b) || b == s[0];
        }
      }
      ps
  }

  /** The pieces with a line feed between each two. */
  function Join(ps: seq<seq<byte>>): seq<byte>
    requires |ps| >= 1
  {
    if |ps| == 1 then ps[0] else ps[0] + [LF] + Join(ps[1..])
  }

  lemma {:induction false} SplitPiece(p: seq<byte>, rest: seq<byte>)
    requires !Has(p, LF)
    ensures Split(p + [LF] + rest) == [p] + Split(rest)
  {
    var s := p + [LF] + rest;
    if p == [] {
      assert s[1..] == rest;
    } else {
      SplitPiece(p[1..], rest);
      assert s[1..] == p[1..] + [LF] + rest;
      assert s[0] == p[0];
      assert [p[0]] + p[1..] == p;
    }
  }

  lemma {:induction false} SplitWhole(p: seq<byte>)
    requires !Has(p, LF)
    ensures Split(p) == [p]
  {
    if p != [] {
      SplitWhole(p[1..]);
      assert [p[0]] + p[1..] == p;
    }
  }

  /** Splitting undoes joining exactly when no piece holds a line feed. */
  lemma {:induction false} SplitJoin(ps: seq<seq<byte>>)
    requires |ps| >= 1
    ensures Split(Join(ps)) == ps <==> forall i :: 0 <= i < |ps| ==> !Has(ps[i], LF)
  {
    if forall i :: 0 <= i < |ps| ==> !Has(ps[i], LF) {
      if |ps| == 1 {
        SplitWhole(ps[0]);
      } else {
        SplitJoin(ps[1..]);
        SplitPiece(ps[0], Join(ps[1..]));
        assert [ps[0]] + ps[1..] == ps;
      }
    }
  }

  function StripCr(s: seq<byte>): (r: seq<byte>)
    ensures r == s <==> (s == [] || s[|s| - 1] != CR)
  {
    if s != [] && s[|s| - 1] == CR then s[..|s| - 1] else s
  }

  /** Line `i` of `str::lines()`, or the empty string when there is none: a
      line feed ends a line and takes one carriage return before it along. */
  function Line(s: seq<byte>, i: nat): (l: seq<byte>)
    ensures !Has(l, LF)
    ensures forall b :: Has(l, b) ==> Has(s, b)
  {
    var ps := Split(s);
    if i >= |ps| then []
    else if i == |ps| - 1 then ps[i]
    else StripCr(ps[i])
  }

  lemma {:induction false} JoinHas(ps: seq<seq<byte>>, b: byte)
    requires |ps| >= 1 && b != LF
    ensures Has(Join(ps), b) <==> exists i :: 0 <= i < |ps| && Has(ps[i], b)
  {
    if |ps| > 1 {
      JoinHas(ps[1..], b);
      if i :| 0 <= i < |ps| && Has(ps[i], b) {
        if i > 0 { assert Has(ps[1..][i - 1], b); }
      }
    }
  }

  lemma {:induction false} JoinValid(ps: seq<seq<byte>>)
    requires |ps| >= 1 && forall i :: 0 <= i < |ps| ==> ValidUtf8(ps[i])
    ensures ValidUtf8(Join(ps))
  {
    if |ps| > 1 {
      JoinValid(ps[1..]);
      ValidConcat(ps[0], [LF]);
      ValidConcat(ps[0] + [LF], Join(ps[1..]));
    }
  }

  /** `str::replace(';', "\n")`. */
  function Replace(s: seq<byte>): (r: seq<byte>)
    ensures |r| == |s| && !Has(r, SEMICOLON)
    ensures !Has(s, SEMICOLON) ==> r == s
  {
    seq(|s|, i requires 0 <= i < |s| => if s[i] == SEMICOLON then LF else s[i])
  }

  // ------------------------------------------------------------- trimming

  /** `trim_start_matches(p)`: drop every leading repetition of `p`. */
  function TrimStart(s: seq<byte>, p: seq<byte>): (r: seq<byte>)
    requires p != []
    ensures !(p <= r)
    ensures |r| <= |s| && (r == s <==> !(p <= s)) && (|r| == |s| ==> r == s)
    ensures forall b :: Has(r, b) ==> Has(s, b)
  {
    if p <= s then TrimStart(s[|p|..], p) else s
  }

  /** UTF-8 encodings of the characters with the White_Space property. */
  predicate White(c: seq<byte>) {
    || (|c| == 1 && (9 <= c[0] <= 13 || c[0] == 32))
    || c == [0xC2, 0x85] || c == [0xC2, 0xA0] || c == [0xE1, 0x9A, 0x80] || c == [0xE3, 0x80, 0x80]
    || c == [0xE2, 0x81, 0x9F]
    || (|c| == 3 && c[..2] == [0xE2, 0x80] && (0x80 <= c[2] <= 0x8A || c[2] == 0xA8 || c[2] == 0xA9 || c[2] == 0xAF))
  }

  /** Bytes of the white-space character that starts `s`, 0 if none does. */
  function WhiteStart(s: seq<byte>): (n: nat)
    ensures n <= |s|
  {
    if |s| >= 1 && White(s[..1]) then 1
    else if |s| >= 2 && White(s[..2]) then 2
    else if |s| >= 3 && White(s[..3]) then 3 else 0
  }

  /** Bytes of the white-space character that ends `s`, 0 if none does. */
  function WhiteEnd(s: seq<byte>): (n: nat)
    ensures n <= |s|
  {
    if |s| >= 1 && White(s[|s| - 1..]) then 1
    else if |s| >= 2 && White(s[|s| - 2..]) then 2
    else if |s| >= 3 && White(s[|s| - 3..]) then 3 else 0
  }

  function DropWhiteStart(s: seq<byte>): (r: seq<byte>)
    ensures |r| <= |s| && (r == s <==> WhiteStart(s) == 0) && (|r| == |s| ==> r == s)
  {
    var n := WhiteStart(s);
    if n == 0 then s else DropWhiteStart(s[n..])
  }

  function DropWhiteEnd(s: seq<byte>): (r: seq<byte>)
    ensures |r| <= |s| && (r == s <==> WhiteEnd(s) == 0) && (|r| == |s| ==> r == s)
  {
    var n := WhiteEnd(s);
    if n == 0 then s else DropWhiteEnd(s[..|s| - n])
  }

  /** `str::trim()`, on well-formed UTF-8. */
  function Trim(s: seq<byte>): (r: seq<byte>)
    ensures |r| <= |s| && (r == s <==> WhiteStart(s) == 0 && WhiteEnd(s) == 0) && (|r| == |s| ==> r == s)
  {
    DropWhiteEnd(DropWhiteStart(s))
  }

  lemma {:induction false} DropWhiteStartHas(s: seq<byte>, b: byte)
    ensures Has(DropWhiteStart(s), b) ==> Has(s, b)
  {
    if WhiteStart(s) > 0 { DropWhiteStartHas(s[WhiteStart(s)..], b); }
  }

  lemma {:induction false} DropWhiteEndHas(s: seq<byte>, b: byte)
    ensures Has(DropWhiteEnd(s), b) ==> Has(s, b)
  {
    if WhiteEnd(s) > 0 { DropWhiteEndHas(s[..|s| - WhiteEnd(s)], b); }
  }

  lemma TrimHas(s: seq<byte>, b: byte)
    ensures Has(Trim(s), b) ==> Has(s, b)
  {
    DropWhiteStartHas(s, b);
    DropWhiteEndHas(DropWhiteStart(s), b);
  }
}
