/** The parts of Go's `strings`, `bytes` and `path/filepath` packages that the
    core uses, over strings as sequences of characters. Case mapping is ASCII
    only; a path separator is '/'. */
module Text {

  import opened Wrappers

  type byte = b: int | 0 <= b < 256

  predicate IsDigit(c: char) { '0' <= c <= '9' }

  predicate IsAlnum(c: char) { 'a' <= c <= 'z' || 'A' <= c <= 'Z' || '0' <= c <= '9' }

  function LowerChar(c: char): char
  {
    if 'A' <= c <= 'Z' then (c as int + 32) as char else c
  }

  /** strings.ToLower, restricted to ASCII letters. */
  function Lower(s: string): (r: string)
    ensures |r| == |s|
    ensures forall i :: 0 <= i < |s| ==> r[i] == LowerChar(s[i])
  {
    seq(|s|, i requires 0 <= i < |s| => LowerChar(s[i]))
  }

  lemma LowerIdempotent(s: string)
    ensures Lower(Lower(s)) == Lower(s)
  {
  }

  lemma LowerAppend(a: string, b: string)
    ensures Lower(a + b) == Lower(a) + Lower(b)
  {
  }

  predicate HasPrefix(s: string, p: string) { |p| <= |s| && s[..|p|] == p }

  predicate HasSuffix(s: string, p: string) { |p| <= |s| && s[|s| - |p|..] == p }

  /** sub[k..] occurs in s at position i + k. */
  predicate MatchFrom(s: string, sub: string, i: nat, k: nat)
    decreases |sub| - k
  {
    k >= |sub| || (i + k < |s| && s[i + k] == sub[k] && MatchFrom(s, sub, i, k + 1))
  }

  lemma {:induction false} MatchFromSlice(s: string, sub: string, i: nat, k: nat)
    requires k <= |sub| && i + |sub| <= |s|
    ensures MatchFrom(s, sub, i, k) <==> s[i + k..i + |sub|] == sub[k..]
    decreases |sub| - k
  {
    if k < |sub| {
      MatchFromSlice(s, sub, i, k + 1);
      assert s[i + k..i + |sub|] == [s[i + k]] + s[i + k + 1..i + |sub|];
      assert sub[k..] == [sub[k]] + sub[k + 1..];
    }
  }

  /** sub occurs in s at position i. */
  predicate OccursAt(s: string, sub: string, i: int)
    ensures OccursAt(s, sub, i) <==> 0 <= i && i + |sub| <= |s| && s[i..i + |sub|] == sub
  {
    if 0 <= i && i + |sub| <= |s| then
      MatchFromSlice(s, sub, i, 0);
      MatchFrom(s, sub, i, 0)
    else false
  }

  /** strings.Contains. */
  predicate Contains(s: string, sub: string)
  {
    exists i :: 0 <= i <= |s| - |sub| && OccursAt(s, sub, i)
  }

  /** The last position below n at which sub occurs, or -1. */
  function LastIndexBelow(s: string, sub: string, n: nat): (r: int)
    requires n <= |s| + 1
    ensures -1 <= r < n
    ensures r >= 0 ==> OccursAt(s, sub, r)
    ensures forall k :: r < k < n ==> !OccursAt(s, sub, k)
  {
    if n == 0 then -1
    else if OccursAt(s, sub, n - 1) then n - 1
    else LastIndexBelow(s, sub, n - 1)
  }

  /** strings.LastIndex: the last position at which sub occurs, -1 if none. */
  function LastIndex(s: string, sub: string): (r: int)
    ensures r == -1 <==> !Contains(s, sub)
    ensures r >= 0 ==> OccursAt(s, sub, r) && r <= |s| - |sub|
    ensures forall k :: r < k <= |s| ==> !OccursAt(s, sub, k)
  {
    var r := LastIndexBelow(s, sub, |s| + 1);
    assert r >= 0 ==> r <= |s| - |sub|;
    assert r == -1 ==> !Contains(s, sub);
    r
  }

  /** Position of the dot that starts filepath.Ext of p[..n], if any. */
  function ExtStart(p: string, n: nat): (r: Option<nat>)
    requires n <= |p|
    ensures r.Some? ==> r.value < n && p[r.value] == '.'
    ensures r.Some? ==> forall k :: r.value < k < n ==> p[k] != '.' && p[k] != '/'
    ensures r.None? ==> forall k :: 0 <= k < n && p[k] == '.' ==> exists j :: k < j < n && p[j] == '/'
  {
    if n == 0 then None
    else if p[n - 1] == '/' then None
    else if p[n - 1] == '.' then Some(n - 1)
    else ExtStart(p, n - 1)
  }

  /** filepath.Ext: the suffix from the final dot of the final path element,
      or "" when that element has no dot. */
  function Ext(p: string): (r: string)
    ensures HasSuffix(p, r)
    ensures r != "" ==> r[0] == '.' && forall k :: 1 <= k < |r| ==> r[k] != '.' && r[k] != '/'
  {
    match ExtStart(p, |p|)
    case None => ""
    case Some(i) => p[i..]
  }

  /** A dot-led suffix with no further dot or slash is found by ExtStart. */
  lemma {:induction false} ExtStartSuffix(p: string, x: string, n: nat)
    requires HasSuffix(p, x) && x != [] && x[0] == '.'
    requires forall k :: 1 <= k < |x| ==> x[k] != '.' && x[k] != '/'
    requires |p| - |x| < n <= |p|
    ensures ExtStart(p, n) == Some(|p| - |x|)
    decreases n
  {
    assert p[n - 1] == x[n - 1 - (|p| - |x|)];
    if n - 1 > |p| - |x| {
      ExtStartSuffix(p, x, n - 1);
    }
  }

  /** filepath.Ext of a path ending in such a suffix is that suffix. */
  lemma ExtOfSuffix(p: string, x: string)
    requires HasSuffix(p, x) && x != [] && x[0] == '.'
    requires forall k :: 1 <= k < |x| ==> x[k] != '.' && x[k] != '/'
    ensures Ext(p) == x
  {
    ExtStartSuffix(p, x, |p|);
  }

  lemma ExtStartLower(p: string, n: nat)
    requires n <= |p|
    ensures ExtStart(Lower(p), n) == ExtStart(p, n)
  {
    if n > 0 && p[n - 1] != '/' && p[n - 1] != '.' {
      ExtStartLower(p, n - 1);
    }
  }

  /** The extension of a lowercased name is the lowercased extension. */
  lemma ExtLower(p: string)
    ensures Ext(Lower(p)) == Lower(Ext(p))
  {
    ExtStartLower(p, |p|);
  }

  /** The longest prefix of s made of ASCII digits. */
  function DigitPrefix(s: string): (r: string)
    ensures HasPrefix(s, r)
    ensures forall k :: 0 <= k < |r| ==> IsDigit(r[k])
    ensures |r| < |s| ==> !IsDigit(s[|r|])
  {
    if s == [] || !IsDigit(s[0]) then [] else [s[0]] + DigitPrefix(s[1..])
  }

  /** unicode.IsSpace. */
  predicate IsSpace(c: char)
  {
    c == ' ' || c == '\t' || c == '\n' || c == '\r' || c as int == 0x0B || c as int == 0x0C
    || c as int == 0x85 || c as int == 0xA0 || c as int == 0x1680
    || (0x2000 <= c as int <= 0x200A) || c as int == 0x2028 || c as int == 0x2029
    || c as int == 0x202F || c as int == 0x205F || c as int == 0x3000
  }

  function TrimLeft(s: string): (r: string)
    ensures HasSuffix(s, r)
    ensures r != [] ==> !IsSpace(r[0])
    ensures forall k :: 0 <= k < |s| - |r| ==> IsSpace(s[k])
  {
    if s != [] && IsSpace(s[0]) then
      var r := TrimLeft(s[1..]);
      assert forall k :: 1 <= k < |s| - |r| ==> s[k] == s[1..][k - 1];
      assert s[|s| - |r|..] == s[1..][|s| - 1 - |r|..];
      r
    else s
  }

  function TrimRight(s: string): (r: string)
    ensures HasPrefix(s, r)
    ensures r != [] ==> !IsSpace(r[|r| - 1])
    ensures forall k :: |r| <= k < |s| ==> IsSpace(s[k])
  {
    if s != [] && IsSpace(s[|s| - 1]) then
      var r := TrimRight(s[..|s| - 1]);
      assert forall k :: |r| <= k < |s| - 1 ==> s[k] == s[..|s| - 1][k];
      assert s[..|r|] == s[..|s| - 1][..|r|];
      r
    else s
  }

  /** strings.TrimSpace: s with leading and trailing white space removed. */
  function TrimSpace(s: string): (r: string)
    ensures r != [] ==> !IsSpace(r[0]) && !IsSpace(r[|r| - 1])
    ensures Contains(s, r)
  {
    var l := TrimLeft(s);
    var r := TrimRight(l);
    assert OccursAt(s, r, |s| - |l|);
    r
  }

  /** The trimmed string sits in s at an offset: each of its characters is
      a character of s. */
  lemma TrimSpaceOffset(s: string) returns (i: nat)
    ensures i + |TrimSpace(s)| <= |s|
    ensures forall k :: 0 <= k < |TrimSpace(s)| ==> TrimSpace(s)[k] == s[i + k]
  {
    var l := TrimLeft(s);
    var r := TrimRight(l);
    i := |s| - |l|;
    forall k | 0 <= k < |r| ensures r[k] == s[i + k] {
      assert r[k] == l[..|r|][k];
      assert l[k] == s[i..][k];
    }
  }

  /** strings.ReplaceAll with a one-character pattern and replacement. */
  function ReplaceChar(s: string, from: char, to: char): (r: string)
    ensures |r| == |s|
    ensures forall i :: 0 <= i < |s| ==> r[i] == (if s[i] == from then to else s[i])
  {
    seq(|s|, i requires 0 <= i < |s| => if s[i] == from then to else s[i])
  }

  /** The UTF-8 encoding of one character, as Go stores it in a string. */
  function Utf8(c: char): (r: seq<byte>)
    ensures 1 <= |r| <= 4
  {
    var n := c as int;
    if n < 0x80 then [n]
    else if n < 0x800 then [0xC0 + n / 64, 0x80 + n % 64]
    else if n < 0x10000 then [0xE0 + n / 4096, 0x80 + (n / 64) % 64, 0x80 + n % 64]
    else [0xF0 + (n / 262144) % 8, 0x80 + (n / 4096) % 64, 0x80 + (n / 64) % 64, 0x80 + n % 64]
  }

  /** The bytes of a Go string: the UTF-8 encoding of its characters. */
  function Bytes(s: string): (r: seq<byte>)
    ensures |r| >= |s|
  {
    if s == [] then [] else Utf8(s[0]) + Bytes(s[1..])
  }

  function HexDigit(d: int): (c: char)
    requires 0 <= d < 16
    ensures IsAlnum(c)
  {
    if d < 10 then ('0' as int + d) as char else ('a' as int + d - 10) as char
  }

  function HexBytes(bs: seq<byte>): (r: string)
    ensures |r| == 2 * |bs|
    ensures forall k :: 0 <= k < |r| ==> IsAlnum(r[k])
  {
    if bs == [] then [] else [HexDigit(bs[0] / 16), HexDigit(bs[0] % 16)] + HexBytes(bs[1..])
  }

  /** fmt's %x verb applied to a string: two lower-case hex digits per byte
      of its UTF-8 encoding. */
  function HexString(s: string): (r: string)
    ensures |r| >= 2 * |s|
    ensures forall k :: 0 <= k < |r| ==> IsAlnum(r[k])
  {
    if s == [] then [] else HexBytes(Utf8(s[0])) + HexString(s[1..])
  }

  function DigitChar(d: nat): (c: char)
    requires d < 10
    ensures IsDigit(c)
  {
    ('0' as int + d) as char
  }

  /** The decimal numeral of n, as fmt's %d writes it. */
  function NatString(n: nat): (r: string)
    ensures r != [] && forall k :: 0 <= k < |r| ==> IsDigit(r[k])
  {
    if n < 10 then [DigitChar(n)] else NatString(n / 10) + [DigitChar(n % 10)]
  }

  /** fmt's %d of an integer: a minus sign before the digits of a negative one. */
  function IntString(i: int): (r: string)
    ensures r != []
    ensures i < 0 <==> r[0] == '-'
  {
    if i < 0 then "-" + NatString(-i) else NatString(i)
  }

  /** Byte-wise lexicographic order on strings, Go's `<` on string. */
  predicate Less(a: string, b: string)
  {
    if a == [] then b != []
    else if b == [] then false
    else if a[0] != b[0] then a[0] < b[0]
    else Less(a[1..], b[1..])
  }

  lemma {:induction false} LessIrreflexive(a: string)
    ensures !Less(a, a)
  {
    if a != [] { LessIrreflexive(a[1..]); }
  }

  lemma {:induction false} LessTransitive(a: string, b: string, c: string)
    requires Less(a, b) && Less(b, c)
    ensures Less(a, c)
  {
    if a != [] && b != [] && c != [] && a[0] == b[0] && b[0] == c[0] {
      LessTransitive(a[1..], b[1..], c[1..]);
    }
  }

  lemma {:induction false} LessTotal(a: string, b: string)
    requires a != b
    ensures Less(a, b) || Less(b, a)
  {
    if a != [] && b != [] && a[0] == b[0] {
      assert a == [a[0]] + a[1..] && b == [b[0]] + b[1..];
      LessTotal(a[1..], b[1..]);
    }
  }

  lemma {:induction false} LessAsymmetric(a: string, b: string)
    requires Less(a, b)
    ensures !Less(b, a)
  {
    if a != [] && b != [] && a[0] == b[0] {
      LessAsymmetric(a[1..], b[1..]);
    }
  }
}
