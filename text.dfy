/** The slice of Python's `str` that the verification view relies on:
    `s.split(sep)` with a non-empty separator, and its inverse `sep.join`. */
module Text {
  import opened Wrappers

  /** `sep` occurs in `s` starting at index `i`. */
  predicate OccursAt(s: string, sep: string, i: nat)
  {
    i + |sep| <= |s| && s[i..i + |sep|] == sep
  }

  /** Python's `sep in s`. */
  predicate Contains(s: string, sep: string)
  {
    exists i: nat :: i <= |s| && OccursAt(s, sep, i)
  }

  /** Python's `s.find(sep, start)`, with `None` standing for `-1`. */
  function Find(s: string, sep: string, start: nat): (r: Option<nat>)
    ensures r.Some? ==> start <= r.value && OccursAt(s, sep, r.value)
    decreases |s| - start
  {
    if |s| < start + |sep| then None
    else if OccursAt(s, sep, start) then Some(start)
    else Find(s, sep, start + 1)
  }

  /** `Find` yields the leftmost occurrence at or after `start`, and nothing
      exactly when there is none. */
  lemma {:induction false} FindLeftmost(s: string, sep: string, start: nat)
    ensures Find(s, sep, start).None? <==> forall j: nat :: start <= j ==> !OccursAt(s, sep, j)
    ensures Find(s, sep, start).Some? ==>
      forall j: nat :: start <= j < Find(s, sep, start).value ==> !OccursAt(s, sep, j)
    decreases |s| - start
  {
    if |s| >= start + |sep| && !OccursAt(s, sep, start) {
      FindLeftmost(s, sep, start + 1);
    }
  }

  /** Python's `s.split(sep)` for a non-empty `sep`: cut at every occurrence,
      scanning left to right without overlap. */
  function Split(s: string, sep: string): (parts: seq<string>)
    requires sep != ""
    ensures |parts| >= 1
  {
    SplitFrom(s, sep, 0)
  }

  /** The pieces of `s[start..]`, cutting at each occurrence found from `start` on. */
  function SplitFrom(s: string, sep: string, start: nat): (parts: seq<string>)
    requires sep != "" && start <= |s|
    ensures |parts| >= 1
    decreases |s| - start
  {
    match Find(s, sep, start)
    case None => [s[start..]]
    case Some(i) => [s[start..i]] + SplitFrom(s, sep, i + |sep|)
  }

  /** One step of `SplitFrom` at an occurrence: the piece before it, then the pieces after it. */
  lemma SplitStep(s: string, sep: string, start: nat, i: nat)
    requires sep != "" && start <= |s| && Find(s, sep, start) == Some(i)
    ensures i + |sep| <= |s|
    ensures SplitFrom(s, sep, start) == [s[start..i]] + SplitFrom(s, sep, i + |sep|)
  {
  }

  /** The last step of `SplitFrom`: with no occurrence left, the rest is one piece. */
  lemma SplitEnd(s: string, sep: string, start: nat)
    requires sep != "" && start <= |s| && Find(s, sep, start) == None
    ensures SplitFrom(s, sep, start) == [s[start..]]
  {
  }

  /** Python's `sep.join(parts)`. */
  function Join(parts: seq<string>, sep: string): string
    requires |parts| >= 1
  {
    if |parts| == 1 then parts[0] else parts[0] + sep + Join(parts[1..], sep)
  }

  /** One step of `Join`. */
  lemma JoinCons(first: string, rest: seq<string>, sep: string)
    requires |rest| >= 1
    ensures Join([first] + rest, sep) == first + sep + Join(rest, sep)
  {
    assert ([first] + rest)[1..] == rest;
  }

  /** Joining the pieces of `s[start..]` gives back `s[start..]`. */
  lemma {:induction false} JoinSplitFrom(s: string, sep: string, start: nat)
    requires sep != "" && start <= |s|
    ensures Join(SplitFrom(s, sep, start), sep) == s[start..]
    decreases |s| - start
  {
    var r := Find(s, sep, start);
    if r.None? {
      SplitEnd(s, sep, start);
    } else {
      var i := r.value;
      var m := i + |sep|;
      calc {
        Join(SplitFrom(s, sep, start), sep);
      == { SplitStep(s, sep, start, i); }
        Join([s[start..i]] + SplitFrom(s, sep, m), sep);
      == { JoinCons(s[start..i], SplitFrom(s, sep, m), sep); }
        s[start..i] + sep + Join(SplitFrom(s, sep, m), sep);
      == { JoinSplitFrom(s, sep, m); }
        s[start..i] + sep + s[m..];
      == { CutAround(s, start, i, m); }
        s[start..];
      }
    }
  }

  /** A suffix of `s` is its stretch up to `b`, then up to `c`, then the rest. */
  lemma CutAround(s: string, a: nat, b: nat, c: nat)
    requires a <= b <= c <= |s|
    ensures s[a..] == s[a..b] + s[b..c] + s[c..]
  {
  }

  /** Joining the pieces of a split with the same separator gives back the text. */
  lemma JoinSplit(s: string, sep: string)
    requires sep != ""
    ensures Join(Split(s, sep), sep) == s
  {
    JoinSplitFrom(s, sep, 0);
    assert s[0..] == s;
  }

  /** A stretch of `s` in which no occurrence of `sep` starts holds no `sep`. */
  lemma NoOccurrenceWithin(s: string, sep: string, lo: nat, hi: nat)
    requires sep != "" && lo <= hi <= |s|
    requires forall j: nat :: lo <= j < hi ==> !OccursAt(s, sep, j)
    ensures !Contains(s[lo..hi], sep)
  {
    forall j: nat | OccursAt(s[lo..hi], sep, j)
      ensures false
    {
      forall k | 0 <= k < |sep|
        ensures s[lo + j + k] == sep[k]
      {
        assert s[lo..hi][j..j + |sep|][k] == sep[k];
      }
      assert s[lo + j..lo + j + |sep|] == sep;
      assert OccursAt(s, sep, lo + j);
    }
  }

  /** No piece of `s[start..]` holds the separator. */
  lemma {:induction false} SplitFromPartsAreFree(s: string, sep: string, start: nat)
    requires sep != "" && start <= |s|
    ensures forall k :: 0 <= k < |SplitFrom(s, sep, start)| ==> !Contains(SplitFrom(s, sep, start)[k], sep)
    decreases |s| - start
  {
    FindLeftmost(s, sep, start);
    var r := Find(s, sep, start);
    if r.None? {
      SplitEnd(s, sep, start);
      NoOccurrenceWithin(s, sep, start, |s|);
      assert s[start..|s|] == s[start..];
    } else {
      var i := r.value;
      SplitStep(s, sep, start, i);
      SplitFromPartsAreFree(s, sep, i + |sep|);
      NoOccurrenceWithin(s, sep, start, i);
    }
  }

  /** No piece of a split holds the separator. */
  lemma SplitPartsAreFree(s: string, sep: string)
    requires sep != ""
    ensures forall k :: 0 <= k < |Split(s, sep)| ==> !Contains(Split(s, sep)[k], sep)
  {
    SplitFromPartsAreFree(s, sep, 0);
  }

  /** A split yields one piece exactly when the separator does not occur. */
  lemma SplitOnce(s: string, sep: string)
    requires sep != ""
    ensures |Split(s, sep)| == 1 <==> !Contains(s, sep)
  {
    FindLeftmost(s, sep, 0);
    var r := Find(s, sep, 0);
    if r.None? {
      SplitEnd(s, sep, 0);
      assert s[0..] == s;
    } else {
      SplitStep(s, sep, 0, r.value);
    }
  }

  /** Joining peels off the last piece: what comes before it, then the separator, then it. */
  lemma {:induction false} JoinLast(parts: seq<string>, sep: string)
    requires |parts| >= 2
    ensures Join(parts, sep) == Join(parts[..|parts| - 1], sep) + sep + parts[|parts| - 1]
    decreases |parts|
  {
    if |parts| > 2 {
      JoinLast(parts[1..], sep);
      assert parts[1..][..|parts| - 2] == parts[..|parts| - 1][1..];
    }
  }

  /** The last piece of a split is the text after the last separator: either the
      text has no separator and the piece is all of it, or the text is some
      prefix, the separator, and the piece. */
  lemma LastPiece(s: string, sep: string)
    requires sep != ""
    ensures var parts := Split(s, sep);
      && !Contains(parts[|parts| - 1], sep)
      && (|parts| == 1 ==> parts[0] == s)
      && (|parts| > 1 ==> s == Join(parts[..|parts| - 1], sep) + sep + parts[|parts| - 1])
  {
    var parts := Split(s, sep);
    JoinSplit(s, sep);
    SplitPartsAreFree(s, sep);
    if |parts| > 1 {
      JoinLast(parts, sep);
    }
  }

  /** When the separator's first character appears nowhere else in it, a text
      splits into exactly the two pieces `front` and `back` if and only if it is
      `front + sep + back` and neither piece holds the separator. */
  lemma SplitInTwo(s: string, sep: string, front: string, back: string)
    requires sep != ""
    requires forall k :: 0 < k < |sep| ==> sep[k] != sep[0]
    ensures Split(s, sep) == [front, back] <==>
      s == front + sep + back && !Contains(front, sep) && !Contains(back, sep)
  {
    if Split(s, sep) == [front, back] {
      JoinSplit(s, sep);
      SplitPartsAreFree(s, sep);
      assert Join([front, back], sep) == front + sep + back;
    }
    if s == front + sep + back && !Contains(front, sep) && !Contains(back, sep) {
      SplitAtOnlySeparator(s, sep, front, back);
    }
  }

  /** The reverse half of `SplitInTwo`. */
  lemma SplitAtOnlySeparator(s: string, sep: string, front: string, back: string)
    requires sep != ""
    requires forall k :: 0 < k < |sep| ==> sep[k] != sep[0]
    requires s == front + sep + back && !Contains(front, sep) && !Contains(back, sep)
    ensures Split(s, sep) == [front, back]
  {
    var n := |front|;
    FirstOccurrenceAfter(s, sep, front, back);
    NothingAfter(s, sep, front, back);
    calc {
      Split(s, sep);
    == { TwoPieces(s, sep, n); }
      [s[..n], s[n + |sep|..]];
    == { OuterPieces(front, sep, back); }
      [front, back];
    }
  }

  /** The stretches of `front + sep + back` before and after `sep`. */
  lemma OuterPieces(front: string, sep: string, back: string)
    ensures (front + sep + back)[..|front|] == front
    ensures (front + sep + back)[|front| + |sep|..] == back
  {
  }

  /** A text with exactly two occurrence-free stretches around its first
      occurrence splits into those two pieces. */
  lemma TwoPieces(s: string, sep: string, n: nat)
    requires sep != "" && Find(s, sep, 0) == Some(n)
    requires n + |sep| <= |s| && Find(s, sep, n + |sep|) == None
    ensures Split(s, sep) == [s[..n], s[n + |sep|..]]
  {
    var m := n + |sep|;
    calc {
      Split(s, sep);
    ==
      SplitFrom(s, sep, 0);
    == { SplitStep(s, sep, 0, n); }
      [s[0..n]] + SplitFrom(s, sep, m);
    == { SplitEnd(s, sep, m); }
      [s[0..n]] + [s[m..]];
    == { assert s[0..n] == s[..n]; }
      [s[..n], s[m..]];
    }
  }

  /** In `front + sep + back` with `back` free of `sep`, no occurrence starts after `front + sep`. */
  lemma NothingAfter(s: string, sep: string, front: string, back: string)
    requires sep != ""
    requires s == front + sep + back && !Contains(back, sep)
    ensures Find(s, sep, |front| + |sep|) == None
  {
    var m := |front| + |sep|;
    FindLeftmost(s, sep, m);
    forall j: nat | m <= j
      ensures !OccursAt(s, sep, j)
    {
      if j + |sep| <= |s| {
        assert s[j..j + |sep|] == back[j - m..j - m + |sep|];
        assert OccursAt(s, sep, j) ==> OccursAt(back, sep, j - m);
      }
    }
  }

  /** In `front + sep + back`, with `front` free of `sep` and `sep` not
      overlapping itself, the first occurrence is the one after `front`. */
  lemma FirstOccurrenceAfter(s: string, sep: string, front: string, back: string)
    requires sep != ""
    requires forall k :: 0 < k < |sep| ==> sep[k] != sep[0]
    requires s == front + sep + back && !Contains(front, sep)
    ensures Find(s, sep, 0) == Some(|front|)
  {
    var n := |front|;
    assert s[n..n + |sep|] == sep;
    assert OccursAt(s, sep, n);
    forall j: nat | j < n
      ensures !OccursAt(s, sep, j)
    {
      if j + |sep| <= n {
        assert front[j..j + |sep|] == s[j..j + |sep|];
        assert OccursAt(s, sep, j) ==> OccursAt(front, sep, j);
      } else if j + |sep| <= |s| {
        // the window at j would put sep[n - j] where sep[0] stands
        assert s[j..j + |sep|][n - j] == s[n] == sep[0] != sep[n - j];
      }
    }
    FindLeftmost(s, sep, 0);
  }
}
