/**
 * The string operations the script relies on, with Python's meaning:
 * `str.strip()`, `str.find`, `str.split(sep)` and `sep.join(parts)`.
 */
module Text {
  import opened Wrappers

  /** Python's `str.isspace()` restricted to ASCII: tab, line feed, vertical tab,
      form feed, carriage return, the four separators 0x1C-0x1F and space. */
  predicate IsSpace(c: char) {
    (9 <= c as int <= 13) || (28 <= c as int <= 32)
  }

  /** How many whitespace characters `s` starts with (see LeadingSpacesSpec). */
  function LeadingSpaces(s: string): (n: nat)
    ensures n <= |s|
  {
    if s != [] && IsSpace(s[0]) then 1 + LeadingSpaces(s[1..]) else 0
  }

  /** How many whitespace characters `s` ends with (see TrailingSpacesSpec). */
  function TrailingSpaces(s: string): (n: nat)
    ensures n <= |s|
  {
    if s != [] && IsSpace(s[|s| - 1]) then 1 + TrailingSpaces(s[..|s| - 1]) else 0
  }

  /** The leading count is exact: the counted characters are whitespace and the next
      one is not. */
  lemma {:induction false} LeadingSpacesSpec(s: string)
    ensures forall k :: 0 <= k < LeadingSpaces(s) ==> IsSpace(s[k])
    ensures LeadingSpaces(s) < |s| ==> !IsSpace(s[LeadingSpaces(s)])
  {
    if s != [] && IsSpace(s[0]) {
      LeadingSpacesSpec(s[1..]);
    }
  }

  /** The trailing count is exact: the counted characters are whitespace and the one
      before them is not. */
  lemma {:induction false} TrailingSpacesSpec(s: string)
    ensures forall k :: |s| - TrailingSpaces(s) <= k < |s| ==> IsSpace(s[k])
    ensures TrailingSpaces(s) < |s| ==> !IsSpace(s[|s| - TrailingSpaces(s) - 1])
  {
    if s != [] && IsSpace(s[|s| - 1]) {
      TrailingSpacesSpec(s[..|s| - 1]);
    }
  }

  /** `s.strip()`: the middle of `s` once the leading and the trailing whitespace are
      cut off; it neither starts nor ends with whitespace (see StripSlice for the rest). */
  function Strip(s: string): (r: string)
    ensures r != [] ==> !IsSpace(r[0]) && !IsSpace(r[|r| - 1])
  {
    var i := LeadingSpaces(s);
    LeadingSpacesSpec(s);
    TrailingSpacesSpec(s);
    if i == |s| then [] else s[i..|s| - TrailingSpaces(s)]
  }

  /** The stripped string is the slice of `s` that starts after its leading whitespace,
      and everything cut off on either side is whitespace. */
  lemma StripSlice(s: string)
    ensures var r := Strip(s);
            && LeadingSpaces(s) + |r| <= |s|
            && r == s[LeadingSpaces(s)..LeadingSpaces(s) + |r|]
            && (forall k :: 0 <= k < LeadingSpaces(s) ==> IsSpace(s[k]))
            && (forall k :: LeadingSpaces(s) + |r| <= k < |s| ==> IsSpace(s[k]))
  {
    LeadingSpacesSpec(s);
    TrailingSpacesSpec(s);
  }

  /** A string that is already stripped is left alone. */
  lemma StripStable(s: string)
    requires s != [] ==> !IsSpace(s[0]) && !IsSpace(s[|s| - 1])
    ensures Strip(s) == s
  {
  }

  /** Stripping never introduces a character: a slice of a line without `c` has no `c`. */
  lemma StripKeepsOut(s: string, c: char)
    ensures c !in s ==> c !in Strip(s)
  {
    StripSlice(s);
  }

  /** `pat` occurs in `s` starting at index `i`. */
  predicate OccursAt(s: string, pat: string, i: int) {
    0 <= i && i + |pat| <= |s| && s[i..i + |pat|] == pat
  }

  /** `s.find(pat, from)`: the first index at or after `from` where `pat` occurs
      (FindIsFirst states that nothing earlier matches). */
  function Find(s: string, pat: string, from: nat): (r: Option<nat>)
    decreases |s| - from
    ensures r.Some? ==> from <= r.value && r.value + |pat| <= |s|
  {
    if from + |pat| > |s| then None
    else if s[from..from + |pat|] == pat then Some(from)
    else Find(s, pat, from + 1)
  }

  /** Find reports the first occurrence at or after `from`, and reports none only
      when there is none. */
  lemma {:induction false} FindOccurs(s: string, pat: string, from: nat)
    decreases |s| - from
    ensures Find(s, pat, from).Some? ==> OccursAt(s, pat, Find(s, pat, from).value)
  {
    if from + |pat| <= |s| && s[from..from + |pat|] != pat {
      FindOccurs(s, pat, from + 1);
    }
  }

  lemma {:induction false} FindIsFirst(s: string, pat: string, from: nat)
    decreases |s| - from
    ensures Find(s, pat, from).Some? ==> forall j :: from <= j < Find(s, pat, from).value ==> !OccursAt(s, pat, j)
    ensures Find(s, pat, from).None? ==> forall j :: from <= j ==> !OccursAt(s, pat, j)
  {
    if from + |pat| <= |s| && s[from..from + |pat|] != pat {
      FindIsFirst(s, pat, from + 1);
    }
  }

  /** Occurrences inside a prefix or a suffix are occurrences in the whole string. */
  lemma OccursInPrefix(s: string, pat: string, n: nat, j: int)
    requires n <= |s|
    ensures OccursAt(s[..n], pat, j) <==> OccursAt(s, pat, j) && j + |pat| <= n
  {
    if 0 <= j && j + |pat| <= n {
      assert s[..n][j..j + |pat|] == s[j..j + |pat|];
    }
  }

  lemma OccursInSuffix(s: string, pat: string, n: nat, j: int)
    requires n <= |s| && 0 <= j
    ensures OccursAt(s[n..], pat, j) <==> OccursAt(s, pat, n + j)
  {
    if 0 <= j && n + j + |pat| <= |s| {
      assert s[n..][j..j + |pat|] == s[n + j..n + j + |pat|];
    }
  }

  /** `s.split(sep)` for a non-empty separator: the pieces between the occurrences of
      `sep` found scanning left to right without overlap. */
  function Split(s: string, sep: string): (parts: seq<string>)
    requires sep != []
    decreases |s|
    ensures |parts| >= 1
  {
    match Find(s, sep, 0)
    case None => [s]
    case Some(i) => [s[..i]] + Split(s[i + |sep|..], sep)
  }

  /** No piece of a split contains the separator. */
  lemma {:induction false} SplitPiecesFree(s: string, sep: string)
    requires sep != []
    decreases |s|
    ensures forall k, j :: 0 <= k < |Split(s, sep)| ==> !OccursAt(Split(s, sep)[k], sep, j)
  {
    FindIsFirst(s, sep, 0);
    match Find(s, sep, 0)
    case None =>
    case Some(i) =>
      var rest := s[i + |sep|..];
      SplitPiecesFree(rest, sep);
      FirstPieceFree(s, sep, i);
      assert Split(s, sep) == [s[..i]] + Split(rest, sep);
  }

  lemma FirstPieceFree(s: string, sep: string, i: nat)
    requires sep != [] && i <= |s|
    requires forall j :: 0 <= j < i ==> !OccursAt(s, sep, j)
    ensures forall j :: !OccursAt(s[..i], sep, j)
  {
    forall j ensures !OccursAt(s[..i], sep, j) {
      OccursInPrefix(s, sep, i, j);
    }
  }

  /** The first piece of `s.split(sep)` is everything before the first `sep`. */
  lemma SplitHead(s: string, sep: string)
    requires sep != []
    ensures Find(s, sep, 0).None? ==> Split(s, sep) == [s]
    ensures Find(s, sep, 0).Some? ==> |Split(s, sep)| >= 2
                                      && Split(s, sep)[0] == s[..Find(s, sep, 0).value]
                                      && Split(s, sep)[1] == Split(s[Find(s, sep, 0).value + |sep|..], sep)[0]
  {
    match Find(s, sep, 0)
    case None =>
    case Some(i) =>
      var rest := Split(s[i + |sep|..], sep);
      assert Split(s, sep) == [s[..i]] + rest;
  }

  /** The first occurrence is what `Find` reports. */
  lemma FindFirst(s: string, pat: string, k: nat)
    requires OccursAt(s, pat, k)
    requires forall j :: 0 <= j < k ==> !OccursAt(s, pat, j)
    ensures Find(s, pat, 0) == Some(k)
  {
    FindOccurs(s, pat, 0);
    FindIsFirst(s, pat, 0);
  }

  /** `s.split(sep)[0]` is the prefix of `s` up to the first `sep`, or all of `s`. */
  lemma SplitFirst(s: string, sep: string)
    requires sep != []
    ensures var p := Split(s, sep)[0];
            && |p| <= |s| && p == s[..|p|]
            && (forall j :: 0 <= j < |p| ==> !OccursAt(s, sep, j))
            && (|p| == |s| || OccursAt(s, sep, |p|))
  {
    SplitHead(s, sep);
    FindOccurs(s, sep, 0);
    FindIsFirst(s, sep, 0);
  }

  /** A one-character pattern occurs exactly where that character stands. */
  lemma OccursChar(s: string, c: char, j: int)
    ensures OccursAt(s, [c], j) <==> 0 <= j < |s| && s[j] == c
  {
    if 0 <= j < |s| {
      assert s[j..j + 1] == [s[j]];
    }
  }

  /** `sep.join(parts)`. */
  function Join(parts: seq<string>, sep: string): string {
    if |parts| == 0 then ""
    else if |parts| == 1 then parts[0]
    else parts[0] + sep + Join(parts[1..], sep)
  }

  /** Joining the pieces of a split gives back the original string. */
  lemma {:induction false} JoinSplit(s: string, sep: string)
    requires sep != []
    ensures Join(Split(s, sep), sep) == s
    decreases |s|
  {
    FindOccurs(s, sep, 0);
    match Find(s, sep, 0)
    case None =>
    case Some(i) =>
      var rest := s[i + |sep|..];
      var tail := Split(rest, sep);
      assert Split(s, sep) == [s[..i]] + tail;
      JoinSplit(rest, sep);
      assert Join(Split(s, sep), sep) == s[..i] + sep + Join(tail, sep);
      assert s == s[..i] + s[i..i + |sep|] + rest;
  }

  /** Splitting a join on a one-character separator that no part contains gives back
      the parts. */
  lemma {:induction false} SplitJoin(parts: seq<string>, c: char)
    requires |parts| >= 1
    requires forall k :: 0 <= k < |parts| ==> c !in parts[k]
    ensures Split(Join(parts, [c]), [c]) == parts
  {
    var s := Join(parts, [c]);
    var x := parts[0];
    if |parts| == 1 {
      forall j ensures !OccursAt(s, [c], j) {
        OccursChar(s, c, j);
      }
      FindOccurs(s, [c], 0);
      assert Find(s, [c], 0).None?;
    } else {
      var rest := Join(parts[1..], [c]);
      assert s == x + [c] + rest;
      assert OccursAt(s, [c], |x|) by { assert s[|x|..|x| + 1] == [c]; }
      forall j | 0 <= j < |x| ensures !OccursAt(s, [c], j) {
        OccursChar(s, c, j);
        assert s[j] == x[j];
      }
      FindIsFirst(s, [c], 0);
      FindOccurs(s, [c], 0);
      assert Find(s, [c], 0).Some?;
      var v := Find(s, [c], 0).value;
      assert v >= |x|;
      assert Find(s, [c], 0) == Some(|x|);
      assert s[|x| + 1..] == rest;
      assert s[..|x|] == x;
      SplitJoin(parts[1..], c);
      assert parts == [x] + parts[1..];
    }
  }
}
