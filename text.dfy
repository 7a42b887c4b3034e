/**
 * The few Python `str` operations the controller relies on, with Python's
 * semantics: `isspace`, `strip()`, `t in s`, `split(sep)` and `rfind`. The
 * first-occurrence search `Find` is the helper `Split` is built on.
 */
module Text {
  import opened Opt

  /** Python's `str.isspace()` for one character (bidirectional classes WS, B, S and category Zs). */
  predicate IsSpace(c: char) {
    || c == ' '
    || ('\t' <= c <= '\r')
    || ('\U{1C}' <= c <= '\U{1F}')
    || c == '\U{85}' || c == '\U{A0}' || c == '\U{1680}'
    || ('\U{2000}' <= c <= '\U{200A}')
    || c == '\U{2028}' || c == '\U{2029}' || c == '\U{202F}' || c == '\U{205F}' || c == '\U{3000}'
  }

  /** Neither end of `s` is whitespace: what `strip()` produces. */
  predicate Trimmed(s: string) {
    s == [] || (!IsSpace(s[0]) && !IsSpace(s[|s| - 1]))
  }

  /** `s.lstrip()`: drops the leading whitespace. */
  function TrimStart(s: string): (r: string)
    ensures |r| <= |s|
    ensures r == [] || !IsSpace(r[0])
  {
    if s != [] && IsSpace(s[0]) then TrimStart(s[1..]) else s
  }

  /** `s.rstrip()`: drops the trailing whitespace. */
  function TrimEnd(s: string): (r: string)
    ensures |r| <= |s| && (r != [] ==> r[0] == s[0])
    ensures r == [] || !IsSpace(r[|r| - 1])
  {
    if s != [] && IsSpace(s[|s| - 1]) then TrimEnd(s[..|s| - 1]) else s
  }

  /** `s.strip()`: always trimmed, and the identity on text that already is. */
  function Strip(s: string): (r: string)
    ensures Trimmed(r)
    ensures Trimmed(s) ==> r == s
  {
    TrimEnd(TrimStart(s))
  }

  /** `t` occurs in `s` starting at position `i`. */
  predicate OccursAt(s: string, t: string, i: nat) {
    i + |t| <= |s| && s[i..i + |t|] == t
  }

  /** Python's `t in s` for two strings. */
  predicate Contains(s: string, t: string) {
    exists i: nat :: i <= |s| && OccursAt(s, t, i)
  }

  /** The first occurrence of `t` in `s` at or after `i`. */
  function FindFrom(s: string, t: string, i: nat): (r: Option<nat>)
    requires i <= |s|
    ensures r.Some? ==> i <= r.value && OccursAt(s, t, r.value)
    ensures r.Some? ==> forall j :: i <= j < r.value ==> !OccursAt(s, t, j)
    ensures r.None? ==> forall j :: i <= j <= |s| ==> !OccursAt(s, t, j)
    decreases |s| - i
  {
    if OccursAt(s, t, i) then Some(i)
    else if i == |s| then None
    else FindFrom(s, t, i + 1)
  }

  /** Python's `s.find(t)`, with `None` standing for -1. */
  function Find(s: string, t: string): (r: Option<nat>)
    ensures r.Some? <==> Contains(s, t)
    ensures r.Some? ==> OccursAt(s, t, r.value) && forall j :: 0 <= j < r.value ==> !OccursAt(s, t, j)
  {
    FindFrom(s, t, 0)
  }

  /** Python's `s.split(sep)` for a non-empty separator: cut at every occurrence, left to right. */
  function Split(s: string, sep: string): (parts: seq<string>)
    requires sep != []
    ensures |parts| >= 1
    ensures |parts| == 1 <==> !Contains(s, sep)
    ensures !Contains(parts[0], sep)
    ensures |parts| > 1 ==> |parts[0]| + |sep| <= |s| && s[..|parts[0]| + |sep|] == parts[0] + sep
    decreases |s|
  {
    match Find(s, sep)
    case None => [s]
    case Some(k) =>
      assert !Contains(s[..k], sep) by {
        forall j: nat | j <= k ensures !OccursAt(s[..k], sep, j) {
          if j + |sep| <= k {
            assert !OccursAt(s, sep, j);
            assert s[..k][j..j + |sep|] == s[j..j + |sep|];
          }
        }
      }
      assert s[..k + |sep|] == s[..k] + sep;
      [s[..k]] + Split(s[k + |sep|..], sep)
  }

  /** Python's `s.rfind(c)` for a character known to occur in `s`. */
  function RFind(s: string, c: char): (k: nat)
    requires c in s
    ensures k < |s| && s[k] == c
    ensures forall j :: k < j < |s| ==> s[j] != c
  {
    if s[|s| - 1] == c then |s| - 1 else RFind(s[..|s| - 1], c)
  }

  // ---------------------------------------------------------------------------
  // Facts about occurrences and splitting
  // ---------------------------------------------------------------------------

  /** Concatenation regroups; stated once so that callers need not re-derive it element by element. */
  lemma AppendAssoc<T>(a: seq<T>, b: seq<T>, c: seq<T>)
    ensures (a + b) + c == a + (b + c)
  {
  }

  /** An occurrence that ends inside a prefix is an occurrence in that prefix. */
  lemma OccursInPrefix(a: string, b: string, t: string, j: nat)
    requires j + |t| <= |a| && OccursAt(a + b, t, j)
    ensures OccursAt(a, t, j)
  {
    assert (a + b)[j..j + |t|] == a[j..j + |t|];
  }

  /**
   * When no `sep` starts inside `a` (even one running on into a following
   * `sep`), splitting `a + sep + b` yields `a` and then the parts of `b`.
   */
  lemma {:induction false} SplitAfterFirst(a: string, sep: string, b: string)
    requires sep != [] && !Contains(a + sep[..|sep| - 1], sep)
    ensures Split(a + sep + b, sep) == [a] + Split(b, sep)
  {
    var s := a + sep + b;
    assert s[|a|..|a| + |sep|] == sep;
    assert OccursAt(s, sep, |a|);
    forall j: nat | j < |a| ensures !OccursAt(s, sep, j) {
      if OccursAt(s, sep, j) {
        assert s == (a + sep[..|sep| - 1]) + ([sep[|sep| - 1]] + b);
        OccursInPrefix(a + sep[..|sep| - 1], [sep[|sep| - 1]] + b, sep, j);
        assert false;
      }
    }
    var k := Find(s, sep);
    assert k == Some(|a|);
    assert s[..|a|] == a;
    assert s[|a| + |sep|..] == b;
  }

  /**
   * The first part of a split is itself free of any `sep` that starts in it:
   * it can be put back in front of `sep` and split off again.
   */
  lemma {:induction false} FirstPartIsClean(s: string, sep: string)
    requires sep != [] && Contains(s, sep)
    ensures !Contains(Split(s, sep)[0] + sep[..|sep| - 1], sep)
  {
    var k := Find(s, sep).value;
    var p := Split(s, sep)[0];
    assert p == s[..k];
    var q := p + sep[..|sep| - 1];
    assert q == s[..k + |sep| - 1] by {
      assert s[k..k + |sep|] == sep;
    }
    forall j: nat | j <= |q| ensures !OccursAt(q, sep, j) {
      if OccursAt(q, sep, j) {
        assert q[j..j + |sep|] == s[j..j + |sep|];
        assert OccursAt(s, sep, j) && j < k;
        assert false;
      }
    }
  }

  /** A separator whose first character appears nowhere it could start is absent. */
  lemma {:induction false} FirstCharMissing(s: string, t: string)
    requires t != [] && |t| <= |s| + 1
    requires forall i :: 0 <= i < |s| - |t| + 1 ==> s[i] != t[0]
    ensures !Contains(s, t)
  {
    forall i: nat | i <= |s| ensures !OccursAt(s, t, i) {
      if i + |t| <= |s| {
        assert s[i..i + |t|][0] == s[i];
      }
    }
  }

  /** `lstrip()` removes a whitespace-only prefix and keeps the rest of `s` as it was. */
  lemma {:induction false} TrimStartIsSuffix(s: string)
    ensures var r := TrimStart(s); s == s[..|s| - |r|] + r
    ensures forall k :: 0 <= k < |s| - |TrimStart(s)| ==> IsSpace(s[k])
  {
    if s != [] && IsSpace(s[0]) {
      TrimStartIsSuffix(s[1..]);
    }
  }

  /** `rstrip()` removes a whitespace-only suffix and keeps the rest of `s` as it was. */
  lemma {:induction false} TrimEndIsPrefix(s: string)
    ensures var r := TrimEnd(s); s == r + s[|r|..]
    ensures forall k :: |TrimEnd(s)| <= k < |s| ==> IsSpace(s[k])
  {
    if s != [] && IsSpace(s[|s| - 1]) {
      TrimEndIsPrefix(s[..|s| - 1]);
    }
  }

  /** `s.strip()` ignores one blank added after trimmed text. */
  lemma StripPaddedEnd(s: string)
    requires Trimmed(s)
    ensures Strip(s + " ") == s
  {
    var padded := s + " ";
    if s != [] {
      assert padded[0] == s[0];
      assert TrimStart(padded) == padded;
    } else {
      assert TrimStart(padded) == [];
    }
    assert padded[..|padded| - 1] == s;
    assert TrimEnd(padded) == TrimEnd(s);
  }

  /** `s.strip()` ignores one blank added before trimmed text. */
  lemma StripPaddedStart(s: string)
    requires Trimmed(s)
    ensures Strip(" " + s) == s
  {
    assert (" " + s)[1..] == s;
    assert TrimStart(" " + s) == TrimStart(s);
  }

  /** `s` occurs at the start of `s + t`. */
  lemma PrefixContained(s: string, t: string)
    ensures Contains(s + t, s)
  {
    assert (s + t)[0..|s|] == s;
    assert OccursAt(s + t, s, 0);
  }
}
