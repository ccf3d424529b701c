/** URL placeholder extraction: the `/:([a-z0-9]+)/ig` regular expression run with `exec` in a loop over
    the formatted action URL (lib/heello.js:98-101). */
module Placeholders {
  import opened Wrappers

  /** A character of the class `[a-z0-9]` under the case-insensitive flag. */
  predicate IsWordChar(c: char) {
    ('a' <= c <= 'z') || ('A' <= c <= 'Z') || ('0' <= c <= '9')
  }

  /** A placeholder token starts at `i`: a ':' immediately followed by a word character. */
  predicate IsPlaceholderAt(s: string, i: int) {
    0 <= i && i + 1 < |s| && s[i] == ':' && IsWordChar(s[i + 1])
  }

  /** End (exclusive) of the maximal run of word characters starting at `j`: the greedy `+`. */
  function RunEnd(s: string, j: nat): (e: nat)
    requires j <= |s|
    ensures j <= e <= |s|
    ensures forall k :: j <= k < e ==> IsWordChar(s[k])
    ensures e == |s| || !IsWordChar(s[e])
    decreases |s| - j
  {
    if j < |s| && IsWordChar(s[j]) then RunEnd(s, j + 1) else j
  }

  /** The capture group of the match starting at `i`: the maximal word run after the ':'. */
  function NameAt(s: string, i: int): (name: string)
    requires IsPlaceholderAt(s, i)
    ensures |name| >= 1
    ensures i + 1 + |name| <= |s|
    ensures forall k :: 0 <= k < |name| ==> name[k] == s[i + 1 + k]
    ensures forall k :: 0 <= k < |name| ==> IsWordChar(name[k])
    ensures i + 1 + |name| == |s| || !IsWordChar(s[i + 1 + |name|])
  {
    s[i + 1 .. RunEnd(s, i + 1)]
  }

  /** One `re.exec(url)` with `re.lastIndex == from`: the first placeholder at or after `from`,
      or None (the `null` that ends the loop). */
  function Exec(s: string, from: nat): (m: Option<nat>)
    requires from <= |s|
    ensures m.Some? ==> from <= m.value && IsPlaceholderAt(s, m.value)
    ensures m.Some? ==> forall k :: from <= k < m.value ==> !IsPlaceholderAt(s, k)
    ensures m.None? ==> forall k :: from <= k < |s| ==> !IsPlaceholderAt(s, k)
    decreases |s| - from
  {
    if from == |s| then None
    else if IsPlaceholderAt(s, from) then Some(from)
    else Exec(s, from + 1)
  }

  /** The `while ((res = re.exec(url)) !== null)` loop started with `re.lastIndex == from`: it collects
      each capture, and the global flag makes the next search resume where the match ended. */
  function ScanFrom(s: string, from: nat): (names: seq<string>)
    requires from <= |s|
    ensures |names| <= |s| - from
    ensures forall j :: 0 <= j < |names| ==>
              |names[j]| >= 1 && forall k :: 0 <= k < |names[j]| ==> IsWordChar(names[j][k])
    decreases |s| - from
  {
    match Exec(s, from)
    case None => []
    case Some(i) => [NameAt(s, i)] + ScanFrom(s, RunEnd(s, i + 1))
  }

  /** `this.urlParams` for a formatted URL: left to right, the name following every ':' that is
      followed by a word character, one entry per such ':' (duplicates kept), and nothing else. */
  function UrlParams(url: string): (names: seq<string>)
    ensures |names| == |Starts(url)|
    ensures forall j :: 0 <= j < |names| ==> names[j] == NameAt(url, Starts(url)[j])
  {
    ScanFromIsNamesAtStarts(url, 0);
    ScanFrom(url, 0)
  }

  // Reference definition: every position where a placeholder token starts, found position by position.

  /** The placeholder start positions at or after `from`, in increasing order. */
  function StartsFrom(s: string, from: nat): (starts: seq<nat>)
    requires from <= |s|
    ensures forall j :: 0 <= j < |starts| ==> from <= starts[j] && IsPlaceholderAt(s, starts[j])
    ensures forall k :: from <= k < |s| && IsPlaceholderAt(s, k) ==> k in starts
    decreases |s| - from
  {
    if from == |s| then []
    else (if IsPlaceholderAt(s, from) then [from] else []) + StartsFrom(s, from + 1)
  }

  /** The reference positions are listed in increasing order. */
  lemma {:induction false} StartsIncreasing(s: string, from: nat)
    requires from <= |s|
    ensures forall j, l :: 0 <= j < l < |StartsFrom(s, from)| ==> StartsFrom(s, from)[j] < StartsFrom(s, from)[l]
    decreases |s| - from
  {
    if from < |s| {
      StartsIncreasing(s, from + 1);
    }
  }

  function Starts(s: string): (starts: seq<nat>) {
    StartsFrom(s, 0)
  }

  /** The names captured at the given placeholder positions, in the same order. */
  function NamesAt(s: string, starts: seq<nat>): (names: seq<string>)
    requires forall j :: 0 <= j < |starts| ==> IsPlaceholderAt(s, starts[j])
    ensures |names| == |starts|
    ensures forall j :: 0 <= j < |starts| ==> names[j] == NameAt(s, starts[j])
  {
    if starts == [] then [] else [NameAt(s, starts[0])] + NamesAt(s, starts[1..])
  }

  /** Positions that hold no placeholder start contribute nothing to the reference list. */
  lemma {:induction false} SkipNonStarts(s: string, from: nat, to: nat)
    requires from <= to <= |s|
    requires forall k :: from <= k < to ==> !IsPlaceholderAt(s, k)
    ensures StartsFrom(s, from) == StartsFrom(s, to)
    decreases |s| - from
  {
    if from < to {
      SkipNonStarts(s, from + 1, to);
    }
  }

  /** From a search start, the reference list is the match exec finds, then the positions after the
      matched run: a ':' is not a word character, so no start lies inside the run. */
  lemma StartsAfterMatch(s: string, from: nat, i: nat)
    requires from <= |s| && Exec(s, from) == Some(i)
    ensures StartsFrom(s, from) == [i] + StartsFrom(s, RunEnd(s, i + 1))
  {
    SkipNonStarts(s, from, i);
    SkipNonStarts(s, i + 1, RunEnd(s, i + 1));
    assert StartsFrom(s, i) == [i] + StartsFrom(s, i + 1);
  }

  lemma NamesAtCons(s: string, i: nat, rest: seq<nat>)
    requires IsPlaceholderAt(s, i)
    requires forall j :: 0 <= j < |rest| ==> IsPlaceholderAt(s, rest[j])
    ensures NamesAt(s, [i] + rest) == [NameAt(s, i)] + NamesAt(s, rest)
  {
    assert ([i] + rest)[1..] == rest;
  }

  /** The exec loop from `from` captures exactly the names at the reference positions from `from`. */
  lemma {:induction false} ScanFromIsNamesAtStarts(s: string, from: nat)
    requires from <= |s|
    ensures ScanFrom(s, from) == NamesAt(s, StartsFrom(s, from))
    decreases |s| - from
  {
    var m := Exec(s, from);
    if m.None? {
      SkipNonStarts(s, from, |s|);
    } else {
      var i := m.value;
      var e := RunEnd(s, i + 1);
      assert ScanFrom(s, from) == [NameAt(s, i)] + ScanFrom(s, e);
      StartsAfterMatch(s, from, i);
      ScanFromIsNamesAtStarts(s, e);
      NamesAtCons(s, i, StartsFrom(s, e));
    }
  }

  /** A repeated placeholder is captured twice rather than rejected. */
  lemma DuplicatePlaceholdersKept()
    ensures UrlParams("/u/:id/:id.json") == ["id", "id"]
  {
    var s := "/u/:id/:id.json";
    assert RunEnd(s, 10) == 10;
    assert RunEnd(s, 8) == 10;
    assert RunEnd(s, 6) == 6;
    assert RunEnd(s, 4) == 6;
    assert Exec(s, 10) == None;
    assert ScanFrom(s, 10) == [];
    assert IsPlaceholderAt(s, 7);
    assert Exec(s, 6) == Some(7);
    assert NameAt(s, 7) == s[8..10] == "id";
    assert ScanFrom(s, 6) == ["id"];
    assert IsPlaceholderAt(s, 3);
    assert Exec(s, 0) == Some(3);
    assert NameAt(s, 3) == s[4..6] == "id";
    assert ScanFrom(s, 0) == ["id", "id"];
  }
}
