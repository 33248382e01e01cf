/**
 * The parts of Python's `str` that the paste model relies on, for a
 * one-character separator: `s.count(c)`, `s.split(sep)`, `s.rsplit(sep)`
 * (without `maxsplit`), `sep.join(parts)` and indexing with `[-1]`.
 */
module PyStr {

  /** `s.count(c)`: how many times `c` occurs in `s`. */
  function Count(s: string, c: char): (n: nat)
    ensures n <= |s|
    ensures n == 0 <==> c !in s
  {
    if s == [] then 0
    else
      assert c in s <==> s[0] == c || c in s[1..];
      (if s[0] == c then 1 else 0) + Count(s[1..], c)
  }

  /** `s.split(sep)`: the segments between occurrences of `sep`, scanning from the left. */
  function Split(s: string, sep: char): (parts: seq<string>)
    ensures |parts| >= 1
  {
    if s == [] then [""]
    else
      var rest := Split(s[1..], sep);
      if s[0] == sep then [""] + rest
      else [[s[0]] + rest[0]] + rest[1..]
  }

  /** `s.rsplit(sep)` without `maxsplit`: the segments, scanning from the right. */
  function RSplit(s: string, sep: char): (parts: seq<string>)
    ensures |parts| >= 1
  {
    if s == [] then [""]
    else
      var rest := RSplit(s[..|s| - 1], sep);
      if s[|s| - 1] == sep then rest + [""]
      else ExtendLast(rest, s[|s| - 1])
  }

  /** `sep.join(parts)`. */
  function Join(parts: seq<string>, sep: char): string
  {
    if parts == [] then ""
    else if |parts| == 1 then parts[0]
    else parts[0] + [sep] + Join(parts[1..], sep)
  }

  /** `xs[-1]` on a non-empty list. */
  function Last<T>(xs: seq<T>): T
    requires |xs| >= 1
  {
    xs[|xs| - 1]
  }

  /**
   * `r` is what follows the last `sep` in `s`: a suffix of `s` free of `sep`,
   * which is either all of `s` or is preceded by a `sep`.
   */
  predicate IsLastSegment(s: string, sep: char, r: string)
  {
    |r| <= |s| && r == s[|s| - |r|..] && sep !in r
    && (|r| == |s| || s[|s| - |r| - 1] == sep)
  }

  /** Splitting yields one more segment than there are separators. */
  lemma {:induction false} SplitLength(s: string, sep: char)
    ensures |Split(s, sep)| == Count(s, sep) + 1
  {
    if s != [] {
      SplitLength(s[1..], sep);
    }
  }

  /** No segment contains the separator. */
  lemma {:induction false} SplitPartsOmitSep(s: string, sep: char)
    ensures forall i :: 0 <= i < |Split(s, sep)| ==> sep !in Split(s, sep)[i]
  {
    if s != [] {
      SplitPartsOmitSep(s[1..], sep);
      var rest := Split(s[1..], sep);
      if s[0] != sep {
        assert sep !in [s[0]] + rest[0];
        assert forall i :: 1 <= i < |Split(s, sep)| ==> Split(s, sep)[i] == rest[i];
      } else {
        assert forall i :: 1 <= i < |Split(s, sep)| ==> Split(s, sep)[i] == rest[i - 1];
      }
    }
  }

  /** Gluing `h` onto the first segment glues it onto the joined string. */
  lemma JoinMergeHead(h: string, parts: seq<string>, sep: char)
    requires |parts| >= 1
    ensures Join([h + parts[0]] + parts[1..], sep) == h + Join(parts, sep)
  {
  }

  /** Joining the segments with the separator gives back the string. */
  lemma {:induction false} JoinSplit(s: string, sep: char)
    ensures Join(Split(s, sep), sep) == s
  {
    if s != [] {
      JoinSplit(s[1..], sep);
      var rest := Split(s[1..], sep);
      assert s == [s[0]] + s[1..];
      if s[0] == sep {
        assert ([""] + rest)[1..] == rest;
        assert Join([""] + rest, sep) == "" + [sep] + Join(rest, sep);
      } else {
        JoinMergeHead([s[0]], rest, sep);
      }
    }
  }

  /** Splitting a string that starts with a separator-free `p`. */
  lemma {:induction false} SplitAfterFreePrefix(p: string, t: string, sep: char)
    requires sep !in p
    ensures Split(p + t, sep) == [p + Split(t, sep)[0]] + Split(t, sep)[1..]
  {
    if p == [] {
      var rest := Split(t, sep);
      assert p + t == t;
      assert p + rest[0] == rest[0];
      assert [rest[0]] + rest[1..] == rest;
    } else {
      var q := p + t;
      var rest := Split(t, sep);
      assert q[1..] == p[1..] + t;
      SplitAfterFreePrefix(p[1..], t, sep);
      var inner := Split(q[1..], sep);
      assert inner == [p[1..] + rest[0]] + rest[1..];
      assert q[0] == p[0] && p[0] != sep;
      assert Split(q, sep) == [[q[0]] + inner[0]] + inner[1..];
      assert inner[1..] == rest[1..];
      assert [p[0]] + (p[1..] + rest[0]) == p + rest[0];
    }
  }

  /** Splitting a joined list of separator-free segments gives back the segments. */
  lemma {:induction false} SplitJoin(parts: seq<string>, sep: char)
    requires |parts| >= 1
    requires forall i :: 0 <= i < |parts| ==> sep !in parts[i]
    ensures Split(Join(parts, sep), sep) == parts
  {
    SplitAfterFreePrefix(parts[0], "", sep);
    assert parts[0] + "" == parts[0];
    if |parts| >= 2 {
      var tail := Join(parts[1..], sep);
      SplitJoin(parts[1..], sep);
      assert ([sep] + tail)[1..] == tail;
      assert Split([sep] + tail, sep) == [""] + parts[1..];
      SplitAfterFreePrefix(parts[0], [sep] + tail, sep);
      assert parts[0] + [sep] + tail == parts[0] + ([sep] + tail);
      assert parts == [parts[0]] + parts[1..];
    }
  }

  /** Appending a separator opens a new, empty last segment. */
  lemma {:induction false} SplitAppendSep(s: string, sep: char)
    ensures Split(s + [sep], sep) == Split(s, sep) + [""]
  {
    if s == [] {
      assert s + [sep] == [sep];
    } else {
      SplitAppendSep(s[1..], sep);
      assert (s + [sep])[1..] == s[1..] + [sep];
      var t := Split(s[1..], sep);
      if s[0] != sep {
        var r := Split(s[1..] + [sep], sep);
        assert r[0] == t[0];
        assert r[1..] == t[1..] + [""];
      }
    }
  }

  /** `parts` with `x` appended to its last segment. */
  function ExtendLast(parts: seq<string>, x: char): (r: seq<string>)
    requires |parts| >= 1
    ensures |r| == |parts| && r[..|r| - 1] == parts[..|parts| - 1]
    ensures Last(r) == Last(parts) + [x]
  {
    parts[..|parts| - 1] + [Last(parts) + [x]]
  }

  /** Extending the last segment commutes with prepending a segment. */
  lemma ExtendLastPrepend(p: string, parts: seq<string>, x: char)
    requires |parts| >= 1
    ensures ExtendLast([p] + parts, x) == [p] + ExtendLast(parts, x)
  {
  }

  /** Extending the last segment commutes with gluing a prefix onto the first one. */
  lemma ExtendLastMergeHead(h: string, parts: seq<string>, x: char)
    requires |parts| >= 1
    ensures var e := ExtendLast(parts, x);
      ExtendLast([h + parts[0]] + parts[1..], x) == [h + e[0]] + e[1..]
  {
    var e := ExtendLast(parts, x);
    if |parts| == 1 {
      assert e == [parts[0] + [x]];
      assert (h + parts[0]) + [x] == h + (parts[0] + [x]);
    } else {
      assert e[0] == parts[0];
      assert e[1..] == ExtendLast(parts[1..], x);
      ExtendLastPrepend(h + parts[0], parts[1..], x);
    }
  }

  /** Appending any other character extends the last segment. */
  lemma {:induction false} SplitAppendOther(s: string, x: char, sep: char)
    requires x != sep
    ensures Split(s + [x], sep) == ExtendLast(Split(s, sep), x)
  {
    if s == [] {
      assert s + [x] == [x];
      assert Split([x], sep) == [[x] + ""] + Split([], sep)[1..];
      assert [x] + "" == [x] && Split([], sep)[1..] == [];
      assert ExtendLast([""], x) == [[x]];
    } else {
      SplitAppendOther(s[1..], x, sep);
      assert (s + [x])[1..] == s[1..] + [x];
      assert (s + [x])[0] == s[0];
      var t := Split(s[1..], sep);
      if s[0] == sep {
        ExtendLastPrepend("", t, x);
      } else {
        ExtendLastMergeHead([s[0]], t, x);
      }
    }
  }

  /** `rsplit` without `maxsplit` produces the same list as `split`. */
  lemma {:induction false} RSplitIsSplit(s: string, sep: char)
    ensures RSplit(s, sep) == Split(s, sep)
  {
    if s != [] {
      var init := s[..|s| - 1];
      RSplitIsSplit(init, sep);
      assert s == init + [s[|s| - 1]];
      if s[|s| - 1] == sep {
        SplitAppendSep(init, sep);
      } else {
        SplitAppendOther(init, s[|s| - 1], sep);
      }
    }
  }

  /** Appending a non-separator to a string extends what follows its last separator. */
  lemma LastSegmentAppend(s: string, x: char, sep: char, r: string)
    requires x != sep && IsLastSegment(s, sep, r)
    ensures IsLastSegment(s + [x], sep, r + [x])
  {
  }

  /** The last `rsplit` segment is exactly what follows the last separator. */
  lemma {:induction false} RSplitLastIsLastSegment(s: string, sep: char)
    ensures IsLastSegment(s, sep, Last(RSplit(s, sep)))
  {
    if s != [] && s[|s| - 1] != sep {
      var init, x := s[..|s| - 1], s[|s| - 1];
      RSplitLastIsLastSegment(init, sep);
      LastSegmentAppend(init, x, sep, Last(RSplit(init, sep)));
      assert s == init + [x];
    }
  }

  /** What follows the last separator is determined by the string alone. */
  lemma LastSegmentUnique(s: string, sep: char, r1: string, r2: string)
    requires IsLastSegment(s, sep, r1) && IsLastSegment(s, sep, r2)
    ensures r1 == r2
  {
  }

  /** `(s + t).count(c) == s.count(c) + t.count(c)`. */
  lemma {:induction false} CountConcat(s: string, t: string, c: char)
    ensures Count(s + t, c) == Count(s, c) + Count(t, c)
  {
    if s != [] {
      assert (s + t)[1..] == s[1..] + t;
      CountConcat(s[1..], t, c);
    } else {
      assert s + t == t;
    }
  }
}
