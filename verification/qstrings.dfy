/** The pieces of QString behaviour the weather code relies on: splitting on a
    separator with empty parts kept, case-insensitive substring search, and the
    ordering QMap uses for its string keys. */
module QStrings {

  /* ---------------------------------------------------------------------- */
  /* Splitting (QString::split with the default KeepEmptyParts)              */
  /* ---------------------------------------------------------------------- */

  /** Splits `s` at every occurrence of `sep`. Empty parts are kept, so there is
      always one more part than there are separators. */
  function Split(s: string, sep: char): (parts: seq<string>)
    ensures |parts| == multiset(s)[sep] + 1
    ensures forall i :: 0 <= i < |parts| ==> sep !in parts[i]
    decreases |s|
  {
    if |s| == 0 then [""]
    else
      var rest := Split(s[1..], sep);
      assert s == [s[0]] + s[1..];
      if s[0] == sep then [""] + rest
      else [[s[0]] + rest[0]] + rest[1..]
  }

  /** Puts parts back together with `sep` between neighbours. */
  function Join(parts: seq<string>, sep: char): string
    requires |parts| >= 1
  {
    if |parts| == 1 then parts[0] else parts[0] + [sep] + Join(parts[1..], sep)
  }

  /** Gluing text onto the first part glues it onto the joined text. */
  lemma JoinGlue(x: string, parts: seq<string>, sep: char)
    requires |parts| >= 1
    ensures Join([x + parts[0]] + parts[1..], sep) == x + Join(parts, sep)
  {
    var glued := [x + parts[0]] + parts[1..];
    if |parts| > 1 {
      assert glued[1..] == parts[1..];
    }
  }

  /** An empty first part contributes only its separator. */
  lemma JoinEmptyFirst(parts: seq<string>, sep: char)
    requires |parts| >= 1
    ensures Join([""] + parts, sep) == [sep] + Join(parts, sep)
  {
    assert ([""] + parts)[1..] == parts;
  }

  /** Joining the parts of a split gives back the original text. */
  lemma {:induction false} JoinSplit(s: string, sep: char)
    ensures Join(Split(s, sep), sep) == s
    decreases |s|
  {
    if |s| > 0 {
      var rest := Split(s[1..], sep);
      JoinSplit(s[1..], sep);
      assert s == [s[0]] + s[1..];
      if s[0] == sep {
        JoinEmptyFirst(rest, sep);
      } else {
        JoinGlue([s[0]], rest, sep);
      }
    }
  }

  /** A separator-free prefix is glued onto the first part of what follows. */
  lemma {:induction false} SplitPrefix(p: string, t: string, sep: char)
    requires sep !in p
    ensures Split(p + t, sep) == [p + Split(t, sep)[0]] + Split(t, sep)[1..]
    decreases |p|
  {
    if |p| > 0 {
      assert (p + t)[1..] == p[1..] + t;
      SplitPrefix(p[1..], t, sep);
      assert [p[0]] + (p[1..] + Split(t, sep)[0]) == p + Split(t, sep)[0];
    } else {
      assert p + t == t;
      assert p + Split(t, sep)[0] == Split(t, sep)[0];
    }
  }

  /** Splitting a join of separator-free parts gives back the parts. */
  lemma {:induction false} SplitJoin(parts: seq<string>, sep: char)
    requires |parts| >= 1
    requires forall i :: 0 <= i < |parts| ==> sep !in parts[i]
    ensures Split(Join(parts, sep), sep) == parts
    decreases |parts|
  {
    if |parts| == 1 {
      SplitPrefix(parts[0], "", sep);
      assert parts[0] + "" == parts[0];
    } else {
      var tail := [sep] + Join(parts[1..], sep);
      SplitJoin(parts[1..], sep);
      assert tail[1..] == Join(parts[1..], sep);
      assert Split(tail, sep) == [""] + parts[1..];
      assert parts[0] + [sep] + Join(parts[1..], sep) == parts[0] + tail;
      SplitPrefix(parts[0], tail, sep);
      assert parts[0] + "" == parts[0];
    }
  }

  /* ---------------------------------------------------------------------- */
  /* Case-insensitive search (QString::contains with Qt::CaseInsensitive)    */
  /* ---------------------------------------------------------------------- */

  /** Folds an ASCII capital letter to its small letter; every other character
      is its own fold. */
  function FoldCase(c: char): (f: char)
    ensures !('A' <= f <= 'Z')
    ensures 'a' <= c <= 'z' ==> f == c
  {
    if 'A' <= c <= 'Z' then (c as int - 'A' as int + 'a' as int) as char else c
  }

  /** Folds every character of `s`. */
  function FoldString(s: string): (f: string)
    ensures |f| == |s|
    ensures forall i :: 0 <= i < |s| ==> f[i] == FoldCase(s[i])
  {
    seq(|s|, i requires 0 <= i < |s| => FoldCase(s[i]))
  }

  /** Folding twice is folding once. */
  lemma FoldCaseIdempotent(c: char)
    ensures FoldCase(FoldCase(c)) == FoldCase(c)
  {
  }

  /** Same length, and the same character at every position once folded. */
  predicate EqualIgnoringCase(a: string, b: string)
  {
    |a| == |b| && forall i :: 0 <= i < |a| ==> FoldCase(a[i]) == FoldCase(b[i])
  }

  /** `needle` occurs in `hay` at position `i`, ignoring case. */
  predicate MatchAt(hay: string, needle: string, i: int)
  {
    0 <= i && i + |needle| <= |hay| && EqualIgnoringCase(hay[i..i + |needle|], needle)
  }

  /** Whether `needle` occurs somewhere in `hay`, ignoring case. The empty needle
      occurs in every text. */
  function ContainsIgnoringCase(hay: string, needle: string): (found: bool)
    ensures found <==> exists i :: MatchAt(hay, needle, i)
    decreases |hay|
  {
    if |hay| < |needle| then false
    else if EqualIgnoringCase(hay[..|needle|], needle) then
      assert MatchAt(hay, needle, 0);
      true
    else
      var tail := hay[1..];
      var found := ContainsIgnoringCase(tail, needle);
      if found then
        var i :| MatchAt(tail, needle, i);
        assert tail[i..i + |needle|] == hay[i + 1..i + 1 + |needle|];
        assert MatchAt(hay, needle, i + 1);
        true
      else
        assert forall i :: MatchAt(hay, needle, i) ==> MatchAt(tail, needle, i - 1) by {
          forall i | MatchAt(hay, needle, i)
            ensures MatchAt(tail, needle, i - 1)
          {
            assert i != 0;
            assert tail[i - 1..i - 1 + |needle|] == hay[i..i + |needle|];
          }
        }
        false
  }

  /** Folding the needle beforehand does not change whether it is found. */
  lemma FoldedNeedleFoundAlike(hay: string, needle: string)
    ensures ContainsIgnoringCase(hay, FoldString(needle)) == ContainsIgnoringCase(hay, needle)
  {
    var f := FoldString(needle);
    forall i ensures MatchAt(hay, f, i) <==> MatchAt(hay, needle, i) {
      if 0 <= i && i + |needle| <= |hay| {
        forall k | 0 <= k < |needle| ensures FoldCase(FoldCase(needle[k])) == FoldCase(needle[k]) {
          FoldCaseIdempotent(needle[k]);
        }
      }
    }
  }

  /** Folding the text searched in does not change whether the needle is found. */
  lemma FoldedHayFoundAlike(hay: string, needle: string)
    ensures ContainsIgnoringCase(FoldString(hay), needle) == ContainsIgnoringCase(hay, needle)
  {
    var f := FoldString(hay);
    forall i ensures MatchAt(f, needle, i) <==> MatchAt(hay, needle, i) {
      if 0 <= i && i + |needle| <= |hay| {
        FoldedSliceAlike(hay, i, i + |needle|);
      }
    }
  }

  lemma FoldedSliceAlike(hay: string, lo: int, hi: int)
    requires 0 <= lo <= hi <= |hay|
    ensures forall k :: 0 <= k < hi - lo ==> FoldCase(FoldString(hay)[lo..hi][k]) == FoldCase(hay[lo..hi][k])
  {
    var f := FoldString(hay);
    forall k | 0 <= k < hi - lo ensures FoldCase(f[lo..hi][k]) == FoldCase(hay[lo..hi][k]) {
      assert f[lo..hi][k] == f[lo + k];
      FoldCaseIdempotent(hay[lo + k]);
    }
  }

  /* ---------------------------------------------------------------------- */
  /* Ordering of QMap<QString, _> keys                                       */
  /* ---------------------------------------------------------------------- */

  /** Lexicographic order by character code: a proper prefix comes first. */
  predicate Less(a: string, b: string)
    decreases |a|
  {
    if |b| == 0 then false
    else if |a| == 0 then true
    else if a[0] != b[0] then a[0] < b[0]
    else Less(a[1..], b[1..])
  }

  lemma {:induction false} LessIrreflexive(a: string)
    ensures !Less(a, a)
    decreases |a|
  {
    if |a| > 0 {
      LessIrreflexive(a[1..]);
    }
  }

  lemma {:induction false} LessTransitive(a: string, b: string, c: string)
    requires Less(a, b) && Less(b, c)
    ensures Less(a, c)
    decreases |a|
  {
    if |a| > 0 && a[0] == b[0] && b[0] == c[0] {
      LessTransitive(a[1..], b[1..], c[1..]);
    }
  }

  lemma {:induction false} LessTotal(a: string, b: string)
    requires a != b
    ensures Less(a, b) || Less(b, a)
    decreases |a|
  {
    if |a| > 0 && |b| > 0 && a[0] == b[0] {
      assert a == [a[0]] + a[1..] && b == [b[0]] + b[1..];
      LessTotal(a[1..], b[1..]);
    }
  }

  /** Each element strictly before every later one. */
  predicate StrictlyAscending(s: seq<string>)
  {
    forall i, j :: 0 <= i < j < |s| ==> Less(s[i], s[j])
  }

  /** A strictly ascending sequence lists every member of its set exactly once. */
  lemma {:induction false} AscendingCardinality(s: seq<string>, keys: set<string>)
    requires StrictlyAscending(s)
    requires forall k :: k in s <==> k in keys
    ensures |s| == |keys|
    decreases |s|
  {
    if |s| > 0 {
      var last := s[|s| - 1];
      var front := s[..|s| - 1];
      assert last !in front by {
        forall i | 0 <= i < |front| ensures front[i] != last {
          LessIrreflexive(last);
        }
      }
      assert forall k :: k in front <==> k in keys - {last} by {
        forall k ensures k in front <==> k in keys - {last} {
          if k in s && k != last {
            var i :| 0 <= i < |s| && s[i] == k;
            assert i < |s| - 1;
            assert front[i] == k;
          }
        }
      }
      AscendingCardinality(front, keys - {last});
    }
  }
}
