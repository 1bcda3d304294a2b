/** Searching a string for a separator and `String.prototype.split`, for the
    non-empty separators the system splits on. */
module Text {
  import opened Wrappers

  predicate OccursAt(s: string, sep: string, i: int) {
    0 <= i && i + |sep| <= |s| && s[i..i + |sep|] == sep
  }

  /** The first occurrence of `sep` in `s` at or after `from`. */
  function IndexOf(s: string, sep: string, from: nat): (r: Option<nat>)
    requires |sep| > 0
    ensures r.Some? ==> from <= r.value && OccursAt(s, sep, r.value)
    ensures r.Some? ==> forall i | from <= i < r.value :: !OccursAt(s, sep, i)
    ensures r.None? ==> forall i | from <= i :: !OccursAt(s, sep, i)
    decreases |s| - from
  {
    if from + |sep| > |s| then None
    else if s[from..from + |sep|] == sep then Some(from)
    else IndexOf(s, sep, from + 1)
  }

  /** `s.split(sep)`: the pieces of `s` between successive occurrences of
      `sep`, so there is one more piece than there are occurrences. */
  function Split(s: string, sep: string): (parts: seq<string>)
    requires |sep| > 0
    ensures |parts| > 0
    ensures |parts| > 1 <==> IndexOf(s, sep, 0).Some?
    decreases |s|
  {
    match IndexOf(s, sep, 0)
    case None => [s]
    case Some(i) => [s[..i]] + Split(s[i + |sep|..], sep)
  }

  /** `parts.join(sep)`. */
  function Join(parts: seq<string>, sep: string): string
    requires |parts| > 0
  {
    if |parts| == 1 then parts[0] else parts[0] + sep + Join(parts[1..], sep)
  }

  /** Joining the pieces again gives back the string that was split. */
  lemma {:induction false} SplitJoin(s: string, sep: string)
    requires |sep| > 0
    ensures Join(Split(s, sep), sep) == s
    decreases |s|
  {
    match IndexOf(s, sep, 0)
    case None =>
    case Some(i) =>
      SplitJoin(s[i + |sep|..], sep);
      assert s == s[..i] + sep + s[i + |sep|..];
  }

  /** No piece contains the separator. */
  lemma {:induction false} SplitPieces(s: string, sep: string)
    requires |sep| > 0
    ensures forall j | 0 <= j < |Split(s, sep)| :: IndexOf(Split(s, sep)[j], sep, 0).None?
    decreases |s|
  {
    match IndexOf(s, sep, 0)
    case None =>
    case Some(i) =>
      SplitPieces(s[i + |sep|..], sep);
      PrefixBeforeFirst(s, sep, i);
      var parts := Split(s, sep);
      assert parts == [s[..i]] + Split(s[i + |sep|..], sep);
      forall j | 0 < j < |parts|
        ensures IndexOf(parts[j], sep, 0).None?
      {
        assert parts[j] == Split(s[i + |sep|..], sep)[j - 1];
      }
  }

  /** The text before the first occurrence holds no occurrence. */
  lemma PrefixBeforeFirst(s: string, sep: string, i: nat)
    requires |sep| > 0 && IndexOf(s, sep, 0) == Some(i)
    ensures IndexOf(s[..i], sep, 0).None?
  {
    var p := s[..i];
    if IndexOf(p, sep, 0).Some? {
      OccursInPrefix(s, sep, i, IndexOf(p, sep, 0).value);
    }
  }

  lemma OccursInPrefix(s: string, sep: string, i: nat, j: nat)
    requires i <= |s| && OccursAt(s[..i], sep, j)
    ensures OccursAt(s, sep, j) && j + |sep| <= i
  {
    assert forall k | j <= k < j + |sep| :: s[k] == s[..i][k];
    assert s[j..j + |sep|] == s[..i][j..j + |sep|];
  }

  /** An occurrence with no earlier one is the first. */
  lemma FirstOccurrence(s: string, sep: string, i: nat)
    requires |sep| > 0 && OccursAt(s, sep, i)
    requires forall j | 0 <= j < i :: !OccursAt(s, sep, j)
    ensures IndexOf(s, sep, 0) == Some(i)
  {
  }
}
