/** String helpers with the semantics of the JavaScript string methods the build uses. */
module Strings {

  /** `s.startsWith(p)` */
  predicate StartsWith(s: string, p: string) {
    |p| <= |s| && s[..|p|] == p
  }

  /** `s.endsWith(p)` */
  predicate EndsWith(s: string, p: string) {
    |p| <= |s| && s[|s| - |p|..] == p
  }

  /** `p` occurs in `s` starting at index `i`. */
  predicate OccursAt(s: string, p: string, i: nat) {
    i + |p| <= |s| && s[i..i + |p|] == p
  }

  /** Concatenation is associative. */
  lemma ConcatAssoc<T>(a: seq<T>, b: seq<T>, c: seq<T>)
    ensures a + (b + c) == a + b + c
  {
  }

  /** Ending with a one-character string is having that character last. */
  lemma EndsWithChar(s: string, c: char)
    ensures EndsWith(s, [c]) <==> |s| > 0 && s[|s| - 1] == c
  {
    if |s| > 0 {
      assert s[|s| - 1..] == [s[|s| - 1]];
    }
  }

  /** `s` ends with `p + q` exactly when it ends with `q` and what comes before `q` ends with `p`. */
  lemma EndsWithConcat(s: string, p: string, q: string)
    ensures EndsWith(s, p + q) <==> EndsWith(s, q) && EndsWith(s[..|s| - |q|], p)
  {
    if EndsWith(s, p + q) {
      var t := s[|s| - |p| - |q|..];
      assert t == p + q;
      assert s[|s| - |q|..] == t[|p|..];
      assert s[..|s| - |q|][|s| - |q| - |p|..] == t[..|p|];
    }
    if EndsWith(s, q) && EndsWith(s[..|s| - |q|], p) {
      assert s[|s| - |p| - |q|..] == s[..|s| - |q|][|s| - |q| - |p|..] + s[|s| - |q|..];
    }
  }

  /** `s.includes(p)` */
  predicate Contains(s: string, p: string) {
    exists i: nat | i <= |s| :: OccursAt(s, p, i)
  }

  /** Index of the first occurrence of `p` in `s` at or after `from` (`s.indexOf(p, from)`). */
  function IndexOfFrom(s: string, p: string, from: nat): (r: int)
    requires from <= |s|
    ensures r == -1 || from <= r <= |s| - |p|
    ensures r >= 0 ==> OccursAt(s, p, r)
    ensures r >= 0 ==> forall j: nat :: from <= j < r ==> !OccursAt(s, p, j)
    ensures r == -1 ==> forall j: nat :: from <= j ==> !OccursAt(s, p, j)
    decreases |s| - from
  {
    if OccursAt(s, p, from) then from
    else if from == |s| then -1
    else IndexOfFrom(s, p, from + 1)
  }

  /** `s.replace(p, r)` with a string pattern: only the first occurrence is replaced. */
  function ReplaceFirst(s: string, p: string, r: string): (t: string)
    ensures !Contains(s, p) ==> t == s
    ensures forall k: nat :: OccursAt(s, p, k) && (forall j: nat :: j < k ==> !OccursAt(s, p, j))
              ==> t == s[..k] + r + s[k + |p|..]
  {
    var k := IndexOfFrom(s, p, 0);
    if k < 0 then s
    else
      assert forall j: nat :: j < k ==> !OccursAt(s, p, j);
      s[..k] + r + s[k + |p|..]
  }

  /** Number of occurrences of the character `c` in `s`. */
  function CountChar(s: string, c: char): (n: nat)
    ensures n <= |s|
    ensures n == 0 <==> c !in s
  {
    if s == [] then 0 else (if s[0] == c then 1 else 0) + CountChar(s[1..], c)
  }

  /** `s` repeated `n` times. */
  function Repeat(s: string, n: nat): string {
    if n == 0 then "" else s + Repeat(s, n - 1)
  }

  /** `s.split("/")`: the segments between the slashes, always at least one. */
  function SplitSlash(s: string): (parts: seq<string>)
    ensures |parts| == CountChar(s, '/') + 1
    ensures forall i :: 0 <= i < |parts| ==> '/' !in parts[i]
  {
    if s == [] then [""]
    else
      var rest := SplitSlash(s[1..]);
      if s[0] == '/' then [""] + rest
      else [[s[0]] + rest[0]] + rest[1..]
  }

  /** `parts.join("/")` */
  function JoinSlash(parts: seq<string>): string {
    if |parts| == 0 then ""
    else if |parts| == 1 then parts[0]
    else parts[0] + "/" + JoinSlash(parts[1..])
  }

  /** Splitting at every slash and joining back with slashes gives the string back. */
  lemma {:induction false} JoinSplitSlash(s: string)
    ensures JoinSlash(SplitSlash(s)) == s
  {
    if s != [] {
      var rest := SplitSlash(s[1..]);
      JoinSplitSlash(s[1..]);
      assert s == [s[0]] + s[1..];
      if s[0] == '/' {
        JoinSlashCons("", rest);
      } else {
        JoinSlashHead([s[0]], rest);
      }
    }
  }

  /** Joining a new first segment in front of the others. */
  lemma {:induction false} JoinSlashCons(head: string, rest: seq<string>)
    requires |rest| >= 1
    ensures JoinSlash([head] + rest) == head + "/" + JoinSlash(rest)
  {
    assert ([head] + rest)[1..] == rest;
  }

  /** Extending the first segment by a prefix extends the joined string by it. */
  lemma {:induction false} JoinSlashHead(c: string, rest: seq<string>)
    requires |rest| >= 1
    ensures JoinSlash([c + rest[0]] + rest[1..]) == c + JoinSlash(rest)
  {
    var parts := [c + rest[0]] + rest[1..];
    assert parts[0] == c + rest[0];
    if |rest| == 1 {
      assert |parts| == 1;
    } else {
      assert parts[1..] == rest[1..];
      calc {
        JoinSlash(parts);
        parts[0] + "/" + JoinSlash(parts[1..]);
        (c + rest[0]) + "/" + JoinSlash(rest[1..]);
        c + (rest[0] + "/" + JoinSlash(rest[1..]));
      }
    }
  }

  /** Joining all segments equals joining all but the last, a slash, and the last. */
  lemma {:induction false} JoinSlashLast(parts: seq<string>)
    requires |parts| >= 2
    ensures JoinSlash(parts) == JoinSlash(parts[..|parts| - 1]) + "/" + parts[|parts| - 1]
  {
    if |parts| > 2 {
      JoinSlashLast(parts[1..]);
      assert parts[1..][..|parts| - 2] == parts[..|parts| - 1][1..];
    }
  }

  /** The last `/`-separated segment (`s.split("/").pop()`). */
  function LastSegment(s: string): (r: string)
    ensures '/' !in r
    ensures EndsWith(s, r)
    ensures |r| < |s| ==> s[|s| - |r| - 1] == '/'
  {
    var parts := SplitSlash(s);
    var r := parts[|parts| - 1];
    assert EndsWith(s, r) && (|r| < |s| ==> s[|s| - |r| - 1] == '/') by {
      JoinSplitSlash(s);
      if |parts| >= 2 {
        JoinSlashLast(parts);
        var init := JoinSlash(parts[..|parts| - 1]);
        assert s == init + "/" + r;
        assert s[|init|] == '/';
      }
    }
    r
  }

  /** The longest suffix of `s` that holds no slash. */
  function TrailingSegment(s: string): (r: string)
    ensures EndsWith(s, r) && '/' !in r
  {
    if s == [] || s[|s| - 1] == '/' then ""
    else TrailingSegment(s[..|s| - 1]) + [s[|s| - 1]]
  }

  /** After a slash, a slash-free tail is exactly the trailing segment. */
  lemma {:induction false} TrailingSegmentAfterSlash(d: string, f: string)
    requires '/' !in f
    ensures TrailingSegment(d + "/" + f) == f
  {
    var s := d + "/" + f;
    if f != [] {
      var f' := f[..|f| - 1];
      assert s[..|s| - 1] == d + "/" + f';
      TrailingSegmentAfterSlash(d, f');
      assert f == f' + [f[|f| - 1]];
    }
  }
}
