/**
 * The string operations the daemon relies on, with Python's semantics:
 * `str.find`, `str.split(sep)` for a non-empty separator, `str.endswith`
 * and `str(n)` for a natural number.
 */
module Text {
  import opened Wrappers

  /** `sep` occurs in `s` starting at index `i`. */
  predicate OccursAt(s: string, sep: string, i: nat) {
    i + |sep| <= |s| && s[i..i + |sep|] == sep
  }

  predicate Contains(s: string, sep: string) {
    exists i: nat | i <= |s| :: OccursAt(s, sep, i)
  }

  /** `s.find(sep, from)`: the first occurrence at or after `from`, if any. */
  function FindFrom(s: string, sep: string, from: nat): (r: Option<nat>)
    decreases |s| - from
    ensures r.Some? ==> from <= r.value && OccursAt(s, sep, r.value)
    ensures forall j: nat :: from <= j && (r.None? || j < r.value) ==> !OccursAt(s, sep, j)
  {
    if from + |sep| > |s| then None
    else if s[from..from + |sep|] == sep then Some(from)
    else FindFrom(s, sep, from + 1)
  }

  /** `s.find(sep)`. */
  function Find(s: string, sep: string): (r: Option<nat>)
    ensures r.Some? ==> OccursAt(s, sep, r.value)
    ensures forall j: nat :: (r.None? || j < r.value) ==> !OccursAt(s, sep, j)
    ensures r.None? <==> !Contains(s, sep)
  {
    FindFrom(s, sep, 0)
  }

  /** The inverse of `Split`: `sep.join(fields)`. */
  function Join(fields: seq<string>, sep: string): string
    decreases |fields|
  {
    if |fields| == 0 then ""
    else if |fields| == 1 then fields[0]
    else fields[0] + sep + Join(fields[1..], sep)
  }

  /** Three fields joined. */
  lemma {:induction false} JoinThree(fields: seq<string>, sep: string)
    requires |fields| == 3
    ensures Join(fields, sep) == fields[0] + sep + fields[1] + sep + fields[2]
  {
    assert fields[1..][0] == fields[1] && fields[1..][1..] == [fields[2]];
    assert Join(fields[1..], sep) == fields[1] + sep + fields[2];
  }

  /** A prefix of `s` that ends before the first occurrence of `sep` holds no occurrence. */
  lemma NoOccurrenceBeforeFirst(s: string, sep: string, i: nat)
    requires |sep| > 0 && i <= |s|
    requires forall j: nat :: j < i ==> !OccursAt(s, sep, j)
    ensures !Contains(s[..i], sep)
  {
    forall j: nat | OccursAt(s[..i], sep, j)
      ensures false
    {
      assert s[..i][j..j + |sep|] == s[j..j + |sep|];
      assert OccursAt(s, sep, j);
    }
  }

  /**
   * `s.split(sep)` for a non-empty `sep`: the text between successive
   * left-to-right, non-overlapping occurrences of `sep`.
   */
  function Split(s: string, sep: string): (r: seq<string>)
    requires |sep| > 0
    decreases |s|
    ensures |r| >= 1
    ensures Join(r, sep) == s
    ensures forall k :: 0 <= k < |r| ==> !Contains(r[k], sep)
    ensures forall k :: 0 <= k < |r| - 1 ==> Clean(r[k], sep)
  {
    match Find(s, sep)
    case None => [s]
    case Some(i) =>
      var rest := Split(s[i + |sep|..], sep);
      NoOccurrenceBeforeFirst(s, sep, i);
      FirstOccurrenceIsClean(s, sep, i);
      assert s == s[..i] + sep + s[i + |sep|..] by {
        assert s[i..i + |sep|] == sep;
        assert s == s[..i] + s[i..i + |sep|] + s[i + |sep|..];
      }
      [s[..i]] + rest
  }

  /**
   * `f` may stand before a separator without the separator being found
   * earlier: in `f + sep` the first occurrence of `sep` is the appended one.
   * This is stronger than `!Contains(f, sep)` (see Credentials.SsidFreeOfSepIsNotEnough).
   */
  predicate Clean(f: string, sep: string) {
    Find(f + sep, sep) == Some(|f|)
  }

  lemma CleanFieldIsFree(f: string, sep: string)
    requires |sep| > 0 && Clean(f, sep)
    ensures !Contains(f, sep)
  {
    forall j: nat | OccursAt(f, sep, j)
      ensures false
    {
      assert (f + sep)[j..j + |sep|] == f[j..j + |sep|];
      assert OccursAt(f + sep, sep, j);
    }
  }

  /** A clean field followed by the separator is what `find` stops at, whatever follows. */
  lemma {:induction false} FindAfterCleanField(f: string, sep: string, rest: string)
    requires Clean(f, sep)
    ensures Find(f + sep + rest, sep) == Some(|f|)
  {
    var s := f + sep + rest;
    assert s[|f|..|f| + |sep|] == sep;
    assert OccursAt(s, sep, |f|);
    forall j: nat | j < |f| && OccursAt(s, sep, j)
      ensures false
    {
      assert s[j..j + |sep|] == (f + sep)[j..j + |sep|];
      assert OccursAt(f + sep, sep, j);
    }
  }

  /** Splitting a clean field followed by the separator peels that field off. */
  lemma {:induction false} SplitCons(f: string, sep: string, rest: string)
    requires |sep| > 0 && Clean(f, sep)
    ensures Split(f + sep + rest, sep) == [f] + Split(rest, sep)
  {
    var s := f + sep + rest;
    FindAfterCleanField(f, sep, rest);
    assert s[..|f|] == f;
    assert s[|f| + |sep|..] == rest;
  }

  /** The text before the first occurrence of `sep` is clean. */
  lemma FirstOccurrenceIsClean(s: string, sep: string, i: nat)
    requires OccursAt(s, sep, i)
    requires forall j: nat :: j < i ==> !OccursAt(s, sep, j)
    ensures Clean(s[..i], sep)
  {
    var t := s[..i] + sep;
    assert t == s[..i + |sep|];
    assert OccursAt(t, sep, i) by {
      assert t[i..i + |sep|] == sep;
    }
    forall j: nat | j < i
      ensures !OccursAt(t, sep, j)
    {
      assert !OccursAt(s, sep, j);
      if j + |sep| <= |t| {
        assert t[j..j + |sep|] == s[j..j + |sep|];
      }
    }
    FirstFound(t, sep, i);
  }

  /** `find` answers the occurrence that has none before it. */
  lemma {:induction false} FirstFound(t: string, sep: string, i: nat)
    requires OccursAt(t, sep, i)
    requires forall j: nat :: j < i ==> !OccursAt(t, sep, j)
    ensures Find(t, sep) == Some(i)
  {
    var r := Find(t, sep);
    assert i <= |t|;
    assert Contains(t, sep);
    assert r.Some?;
    assert !(r.value < i);
    assert !(i < r.value);
  }

  /** When `split` found the separator, its first field is clean. */
  lemma SplitHeadIsClean(s: string, sep: string)
    requires |sep| > 0 && |Split(s, sep)| >= 2
    ensures Clean(Split(s, sep)[0], sep)
  {
    match Find(s, sep)
    case None =>
    case Some(i) =>
      FirstOccurrenceIsClean(s, sep, i);
  }

  /** A field with no separator in it splits to itself. */
  lemma SplitFree(f: string, sep: string)
    requires |sep| > 0 && !Contains(f, sep)
    ensures Split(f, sep) == [f]
  {
  }

  /**
   * `split` undoes `join` when every field but the last is clean and the
   * last holds no separator.
   */
  lemma {:induction false} SplitJoin(fields: seq<string>, sep: string)
    requires |sep| > 0 && |fields| >= 1
    requires forall k :: 0 <= k < |fields| - 1 ==> Clean(fields[k], sep)
    requires !Contains(fields[|fields| - 1], sep)
    ensures Split(Join(fields, sep), sep) == fields
  {
    if |fields| == 1 {
      SplitFree(fields[0], sep);
    } else {
      SplitJoin(fields[1..], sep);
      SplitCons(fields[0], sep, Join(fields[1..], sep));
      assert fields == [fields[0]] + fields[1..];
    }
  }

  /** `s.endswith(suffix)`. */
  predicate EndsWith(s: string, suffix: string): (r: bool)
    ensures r <==> exists p :: s == p + suffix
  {
    if |suffix| <= |s| && s[|s| - |suffix|..] == suffix then
      assert s == s[..|s| - |suffix|] + suffix;
      true
    else
      false
  }

  predicate IsDigit(c: char) {
    '0' <= c <= '9'
  }

  function DigitChar(d: nat): (c: char)
    requires d < 10
    ensures IsDigit(c) && c as int - '0' as int == d
  {
    "0123456789"[d]
  }

  /** `str(n)` for a natural number: its decimal digits, without leading zeros. */
  function NatToString(n: nat): (r: string)
    decreases n
    ensures |r| >= 1
    ensures forall k :: 0 <= k < |r| ==> IsDigit(r[k])
    ensures n < 10 <==> |r| == 1
  {
    if n < 10 then [DigitChar(n)]
    else NatToString(n / 10) + [DigitChar(n % 10)]
  }

  /** Distinct numbers print differently: `str` is injective on naturals. */
  lemma {:induction false} NatToStringInjective(a: nat, b: nat)
    requires NatToString(a) == NatToString(b)
    ensures a == b
  {
    var sa, sb := NatToString(a), NatToString(b);
    if a >= 10 && b >= 10 {
      assert sa[|sa| - 1] == sb[|sb| - 1];
      assert a % 10 == b % 10;
      assert NatToString(a / 10) == sa[..|sa| - 1] == sb[..|sb| - 1] == NatToString(b / 10);
      NatToStringInjective(a / 10, b / 10);
    }
  }
}
