/**
 * The string rules that derive a listing entry's `name` from its `path` and its
 * `file_type` from its `name`: Rust's `s.split(sep).last().unwrap_or("")`.
 */
module Segments {

  /** Rejoins the pieces with `sep` between consecutive ones. */
  function Join(pieces: seq<string>, sep: char): string
    requires |pieces| >= 1
  {
    if |pieces| == 1 then pieces[0] else pieces[0] + [sep] + Join(pieces[1..], sep)
  }

  /**
   * `str::split` with a one-character pattern: the maximal runs of characters
   * other than `sep`, in order, including the empty runs before a leading, after
   * a trailing and between two adjacent separators. It never yields nothing.
   */
  function Split(s: string, sep: char): (pieces: seq<string>)
    ensures |pieces| >= 1
    ensures Join(pieces, sep) == s
    ensures forall k :: 0 <= k < |pieces| ==> sep !in pieces[k]
    ensures (|pieces| == 1) == (sep !in s)
    decreases |s|
  {
    if s == [] then [[]]
    else
      var rest := Split(s[1..], sep);
      if s[0] == sep then
        assert s == [sep] + s[1..];
        [[]] + rest
      else
        assert s == [s[0]] + s[1..];
        var pieces := [[s[0]] + rest[0]] + rest[1..];
        assert pieces[1..] == rest[1..];
        pieces
  }

  /** `s.split(sep).last().unwrap_or("")`; the fallback is never taken, as Split is never empty. */
  function LastSegment(s: string, sep: char): string
  {
    var pieces := Split(s, sep);
    pieces[|pieces| - 1]
  }

  /** A suffix of `s`, free of `sep`, that starts right after a `sep` or at the start of `s`. */
  ghost predicate IsLastSegment(s: string, sep: char, r: string)
  {
    |r| <= |s| && r == s[|s| - |r|..] && sep !in r &&
    (|r| < |s| ==> s[|s| - |r| - 1] == sep)
  }

  /**
   * What LastSegment yields: the text after the last `sep`; the whole of `s` when
   * it has no `sep`; the empty string when `s` is empty or ends in `sep`.
   */
  lemma LastSegmentSpec(s: string, sep: char)
    ensures IsLastSegment(s, sep, LastSegment(s, sep))
    ensures (LastSegment(s, sep) == s) == (sep !in s)
    ensures s == [] || s[|s| - 1] == sep ==> LastSegment(s, sep) == []
  {
    LastSegmentShape(s, sep);
    LastSegmentShapeFacts(s, sep, LastSegment(s, sep));
  }

  /** The IsLastSegment shape of LastSegment, by induction on `s`. */
  lemma {:induction false} LastSegmentShape(s: string, sep: char)
    ensures IsLastSegment(s, sep, LastSegment(s, sep))
    decreases |s|
  {
    if s != [] {
      var t := s[1..];
      var r1 := LastSegment(t, sep);
      assert IsLastSegment(t, sep, r1) by {
        LastSegmentShape(t, sep);
      }
      if s[0] != sep && sep !in t {
        assert LastSegment(s, sep) == s by {
          LastSegmentStep(s, sep);
        }
        assert s == [s[0]] + t;
        assert s[0..] == s;
      } else {
        assert LastSegment(s, sep) == r1 by {
          LastSegmentStep(s, sep);
        }
        assert |r1| < |t| || s[0] == sep by {
          if |r1| == |t| {
            assert r1 == t;
          }
        }
        assert s == [s[0]] + t;
        LastSegmentCons(s[0], t, sep, r1);
      }
    }
  }

  /** Any string of the IsLastSegment shape is all of `s` exactly when `s` has no `sep`, and empty when `s` ends in `sep`. */
  lemma LastSegmentShapeFacts(s: string, sep: char, r: string)
    requires IsLastSegment(s, sep, r)
    ensures (r == s) == (sep !in s)
    ensures s == [] || s[|s| - 1] == sep ==> r == []
  {
    if |r| < |s| {
      assert s[|s| - |r| - 1] == sep;
    } else {
      assert r == s;
    }
  }

  /** A last segment of `t` stays one when a character is put in front of `t`, unless it was all of `t` and the character is not `sep`. */
  lemma LastSegmentCons(c: char, t: string, sep: char, r: string)
    requires IsLastSegment(t, sep, r) && (c == sep || |r| < |t|)
    ensures IsLastSegment([c] + t, sep, r)
  {
    var s := [c] + t;
    assert s[|s| - |r|..] == t[|t| - |r|..];
    assert s[|s| - |r| - 1] == if |r| == |t| then c else t[|t| - |r| - 1];
  }

  /** How LastSegment of `s` follows from LastSegment of its tail. */
  lemma LastSegmentStep(s: string, sep: char)
    requires s != []
    ensures var r1 := LastSegment(s[1..], sep);
      LastSegment(s, sep) == if s[0] != sep && sep !in s[1..] then s else r1
  {
    var rest := Split(s[1..], sep);
    if s[0] != sep && |rest| == 1 {
      assert s == [s[0]] + s[1..];
    }
  }

  /** LastSegment is the only string with the IsLastSegment shape. */
  lemma LastSegmentUnique(s: string, sep: char, r: string)
    requires IsLastSegment(s, sep, r)
    ensures r == LastSegment(s, sep)
  {
    LastSegmentSpec(s, sep);
  }

  /** Whatever precedes the last separator, the segment after it is the result. */
  lemma LastSegmentAfter(prefix: string, sep: char, r: string)
    requires sep !in r
    ensures LastSegment(prefix + [sep] + r, sep) == r
  {
    var s := prefix + [sep] + r;
    assert s[|s| - |r|..] == r && s[|s| - |r| - 1] == sep;
    LastSegmentUnique(s, sep, r);
  }
}
