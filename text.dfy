/** String and sequence helpers standing for the `str` methods the source calls. */
module Text {
  import opened Wrappers

  /** `starts_with`: `p` is a prefix of `s`. */
  predicate StartsWith<T(==)>(s: seq<T>, p: seq<T>)
  {
    |p| <= |s| && s[..|p|] == p
  }

  /** `ends_with`: `p` is a suffix of `s`. */
  predicate EndsWith<T(==)>(s: seq<T>, p: seq<T>)
  {
    |p| <= |s| && s[|s| - |p|..] == p
  }

  /** Cutting a sequence in two and joining the halves gives it back. */
  lemma SliceJoin<T>(s: seq<T>, i: nat)
    requires i <= |s|
    ensures s[..i] + s[i..] == s
  {
  }

  /** A prefix of a prefix is a prefix. */
  lemma StartsWithTrans<T>(a: seq<T>, b: seq<T>, c: seq<T>)
    requires StartsWith(a, b) && StartsWith(b, c)
    ensures StartsWith(a, c)
  {
    assert a[..|c|] == a[..|b|][..|c|];
  }

  /** A suffix of a suffix is a suffix. */
  lemma EndsWithTrans<T>(a: seq<T>, b: seq<T>, c: seq<T>)
    requires EndsWith(a, b) && EndsWith(b, c)
    ensures EndsWith(a, c)
  {
    assert a[|a| - |c|..] == a[|a| - |b|..][|b| - |c|..];
  }

  /** A sequence does not start with one that differs from it at some shared index. */
  lemma DiffersAt<T>(s: seq<T>, p: seq<T>, k: nat)
    requires k < |s| && k < |p| && s[k] != p[k]
    ensures !StartsWith(s, p)
  {
    if |p| <= |s| {
      assert s[..|p|][k] != p[k];
    }
  }

  /** `k` copies of `p`, one after the other. */
  function Repeat(p: string, k: nat): string
  {
    if k == 0 then [] else p + Repeat(p, k - 1)
  }

  /**
   * `trim_start_matches(p)`: removes every repetition of `p` at the front of `s`.
   * `TrimRepeat` shows that exactly the leading copies of `p` are removed.
   */
  function TrimStartMatches(s: string, p: string): (r: string)
    ensures |r| <= |s| && EndsWith(s, r)
    ensures p != [] ==> !StartsWith(r, p)
    decreases |s|
  {
    if p != [] && StartsWith(s, p) then
      TrimStartMatches(s[|p|..], p)
    else
      s
  }

  /** One more copy of `p` in front. */
  lemma RepeatFront(p: string, k: nat, t: string)
    requires k > 0
    ensures Repeat(p, k) + t == p + (Repeat(p, k - 1) + t)
  {
    assert Repeat(p, k) == p + Repeat(p, k - 1);
  }

  /** One copy of `p` at the front is trimmed, and the rest is trimmed as before. */
  lemma TrimStep(p: string, rest: string)
    requires p != []
    ensures TrimStartMatches(p + rest, p) == TrimStartMatches(rest, p)
  {
    var s := p + rest;
    assert s[..|p|] == p && s[|p|..] == rest;
  }

  /** Text that does not start with `p` is left as it is. */
  lemma TrimStop(s: string, p: string)
    requires p != [] && !StartsWith(s, p)
    ensures TrimStartMatches(s, p) == s
  {
  }

  /** Trimming copies of `p` off the front gives back the text that followed them. */
  lemma {:induction false} TrimRepeat(p: string, k: nat, t: string)
    requires p != [] && !StartsWith(t, p)
    ensures TrimStartMatches(Repeat(p, k) + t, p) == t
  {
    if k > 0 {
      RepeatFront(p, k, t);
      TrimStep(p, Repeat(p, k - 1) + t);
      TrimRepeat(p, k - 1, t);
    } else {
      assert Repeat(p, k) + t == t;
      TrimStop(t, p);
    }
  }

  /** The first index of `c` in `s`, if any (`str::find` for a char). */
  function IndexOf(s: string, c: char): (r: Option<nat>)
    ensures r.Some? ==> r.value < |s| && s[r.value] == c && c !in s[..r.value]
    ensures r.None? ==> c !in s
  {
    if c !in s then None
    else if s[0] == c then Some(0)
    else
      var i := IndexOf(s[1..], c);
      assert s[1..][..i.value] == s[1..i.value + 1];
      Some(i.value + 1)
  }

  /** The last index of `c` in `s`, if any (`str::rfind` for a char). */
  function LastIndexOf(s: string, c: char): (r: Option<nat>)
    ensures r.Some? ==> r.value < |s| && s[r.value] == c && c !in s[r.value + 1..]
    ensures r.None? ==> c !in s
  {
    if c !in s then None
    else if s[|s| - 1] == c then Some(|s| - 1)
    else
      var i := LastIndexOf(s[..|s| - 1], c);
      assert s[i.value + 1..] == s[..|s| - 1][i.value + 1..] + [s[|s| - 1]];
      Some(i.value)
  }

  /** `split(sep)`: the pieces of `s` between the occurrences of `sep`; always at least one. */
  function SplitOn(s: string, sep: char): (parts: seq<string>)
    ensures |parts| >= 1
    ensures forall i :: 0 <= i < |parts| ==> sep !in parts[i]
    decreases |s|
  {
    match IndexOf(s, sep)
    case None => [s]
    case Some(i) => [s[..i]] + SplitOn(s[i + 1..], sep)
  }

  /** `join(sep)`: the inverse of `SplitOn`. */
  function Join(parts: seq<string>, sep: char): string
    requires |parts| >= 1
  {
    if |parts| == 1 then parts[0] else parts[0] + [sep] + Join(parts[1..], sep)
  }

  /** Splitting and joining back gives the original string. */
  lemma {:induction false} JoinSplitOn(s: string, sep: char)
    ensures Join(SplitOn(s, sep), sep) == s
    decreases |s|
  {
    match IndexOf(s, sep)
    case None =>
    case Some(i) =>
      var parts := SplitOn(s, sep);
      var rest := SplitOn(s[i + 1..], sep);
      assert parts == [s[..i]] + rest;
      assert parts[0] == s[..i] && parts[1..] == rest;
      JoinSplitOn(s[i + 1..], sep);
      assert Join(parts, sep) == s[..i] + [sep] + Join(rest, sep);
      assert s == s[..i] + [sep] + s[i + 1..];
  }

  /** Splitting a joined sequence of separator-free pieces gives the pieces back. */
  lemma {:induction false} SplitOnJoin(parts: seq<string>, sep: char)
    requires |parts| >= 1
    requires forall i :: 0 <= i < |parts| ==> sep !in parts[i]
    ensures SplitOn(Join(parts, sep), sep) == parts
  {
    if |parts| > 1 {
      var s := Join(parts, sep);
      var tail := Join(parts[1..], sep);
      assert s == parts[0] + [sep] + tail;
      assert s[|parts[0]|] == sep;
      assert s[..|parts[0]|] == parts[0];
      assert IndexOf(s, sep) == Some(|parts[0]|);
      assert s[|parts[0]| + 1..] == tail;
      SplitOnJoin(parts[1..], sep);
    }
  }
}
