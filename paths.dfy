/**
 * Secret paths: the slash-delimited location a secret lives at in the vault,
 * and its reading as a list of segments, `path.split("/").filter(Boolean)`
 * (utils.ts:51).
 */
module SecretPaths {

  /** `path.split("/")`: the pieces between slashes; there is always one more piece than slashes. */
  function Split(s: string): (r: seq<string>)
    ensures |r| >= 1
  {
    if s == [] then [""]
    else if s[0] == '/' then [""] + Split(s[1..])
    else
      var t := Split(s[1..]);
      [[s[0]] + t[0]] + t[1..]
  }

  /** No piece holds a slash. */
  lemma {:induction false} SplitPieces(s: string)
    ensures forall i :: 0 <= i < |Split(s)| ==> '/' !in Split(s)[i]
  {
    if s != [] {
      SplitPieces(s[1..]);
      var t := Split(s[1..]);
      if s[0] != '/' {
        assert '/' !in [s[0]] + t[0];
        assert forall i :: 1 <= i < |Split(s)| ==> Split(s)[i] == t[i];
      } else {
        assert forall i :: 1 <= i < |Split(s)| ==> Split(s)[i] == t[i - 1];
      }
    }
  }

  /** The inverse of `Split`: the pieces joined again with '/'. */
  function Join(parts: seq<string>): string
    requires |parts| >= 1
  {
    if |parts| == 1 then parts[0] else parts[0] + "/" + Join(parts[1..])
  }

  /** Splitting loses nothing: joining the pieces gives back the path. */
  lemma {:induction false} JoinSplit(s: string)
    ensures Join(Split(s)) == s
  {
    if s != [] {
      JoinSplit(s[1..]);
      var t := Split(s[1..]);
      if s[0] != '/' {
        var r := Split(s);
        assert r == [[s[0]] + t[0]] + t[1..];
        if |t| == 1 {
          assert Join(r) == [s[0]] + t[0];
        } else {
          assert r[1..] == t[1..];
          assert Join(r) == ([s[0]] + t[0]) + "/" + Join(t[1..]);
          assert Join(t) == t[0] + "/" + Join(t[1..]);
        }
        assert s == [s[0]] + s[1..];
      } else {
        assert Split(s)[1..] == t;
        assert s == "/" + s[1..];
      }
    }
  }

  /** `.filter(Boolean)` on the pieces: the empty ones are dropped, the order is kept. */
  function DropEmpty(parts: seq<string>): (r: seq<string>)
    ensures forall i :: 0 <= i < |r| ==> r[i] != ""
    ensures |r| <= |parts|
  {
    if parts == [] then []
    else if parts[0] == "" then DropEmpty(parts[1..])
    else [parts[0]] + DropEmpty(parts[1..])
  }

  lemma {:induction false} DropEmptyAppend(a: seq<string>, b: seq<string>)
    ensures DropEmpty(a + b) == DropEmpty(a) + DropEmpty(b)
  {
    if a == [] {
      assert a + b == b;
    } else {
      assert (a + b)[1..] == a[1..] + b;
      DropEmptyAppend(a[1..], b);
    }
  }

  /** Every piece that survives was a piece of the input. */
  lemma {:induction false} DropEmptyKeeps(parts: seq<string>, i: int)
    requires 0 <= i < |DropEmpty(parts)|
    ensures DropEmpty(parts)[i] in parts
  {
    if parts[0] == "" {
      DropEmptyKeeps(parts[1..], i);
    } else if i > 0 {
      DropEmptyKeeps(parts[1..], i - 1);
    }
  }

  /** A single piece survives exactly when it is non-empty; with `DropEmptyAppend` this fixes the filter on every list. */
  lemma DropEmptyOne(p: string)
    ensures DropEmpty([p]) == if p == "" then [] else [p]
  {
    assert [p][1..] == [];
  }

  /** Every non-empty piece of the input survives the filter. */
  lemma {:induction false} DropEmptyKeepsNonEmpty(parts: seq<string>, i: int)
    requires 0 <= i < |parts| && parts[i] != ""
    ensures parts[i] in DropEmpty(parts)
  {
    if i > 0 {
      DropEmptyKeepsNonEmpty(parts[1..], i - 1);
      if parts[0] != "" {
        assert DropEmpty(parts) == [parts[0]] + DropEmpty(parts[1..]);
      }
    }
  }

  /** The segments of a path: its non-empty pieces between slashes, in order. */
  function Segments(path: string): seq<string>
  {
    DropEmpty(Split(path))
  }

  /** A list of segments is well formed when no segment is empty or holds a slash. */
  predicate WellFormedSegments(segs: seq<string>)
  {
    forall i :: 0 <= i < |segs| ==> segs[i] != "" && '/' !in segs[i]
  }

  /** Every segment of a path is non-empty and free of slashes. */
  lemma SegmentsWellFormed(path: string)
    ensures WellFormedSegments(Segments(path))
  {
    var r := Segments(path);
    SplitPieces(path);
    forall i | 0 <= i < |r|
      ensures r[i] != "" && '/' !in r[i]
    {
      DropEmptyKeeps(Split(path), i);
    }
  }

  /** Extending the first piece commutes with appending more pieces. */
  lemma JoinFirstPiece(c: char, t: seq<string>, u: seq<string>)
    requires |t| >= 1
    ensures [[c] + (t + u)[0]] + (t + u)[1..] == ([[c] + t[0]] + t[1..]) + u
  {
    assert (t + u)[0] == t[0];
    assert (t + u)[1..] == t[1..] + u;
  }

  lemma {:induction false} SplitAppend(a: string, b: string)
    ensures Split(a + "/" + b) == Split(a) + Split(b)
  {
    if a == [] {
      assert a + "/" + b == "/" + b;
      assert ("/" + b)[1..] == b;
    } else {
      assert (a + "/" + b)[1..] == a[1..] + "/" + b;
      SplitAppend(a[1..], b);
      if a[0] != '/' {
        JoinFirstPiece(a[0], Split(a[1..]), Split(b));
      }
    }
  }

  /**
   * Splitting on '/' and dropping empty pieces is a homomorphism: the
   * segments of `a/b` are those of `a` followed by those of `b`. So leading,
   * trailing and doubled slashes never change where a secret is inserted.
   */
  lemma SegmentsAppend(a: string, b: string)
    ensures Segments(a + "/" + b) == Segments(a) + Segments(b)
  {
    SplitAppend(a, b);
    DropEmptyAppend(Split(a), Split(b));
  }

  /** A path without slashes is one segment, or none when it is empty. */
  lemma {:induction false} SegmentsOfName(s: string)
    requires '/' !in s
    ensures Segments(s) == if s == "" then [] else [s]
  {
    if s != [] {
      assert s[0] != '/';
      assert '/' !in s[1..] by {
        forall k | 0 <= k < |s[1..]| ensures s[1..][k] != '/' { assert s[1..][k] == s[k + 1]; }
      }
      SegmentsOfName(s[1..]);
      var t := Split(s[1..]);
      assert t == [s[1..]] by {
        JoinSplit(s[1..]);
      }
      assert [s[0]] + s[1..] == s;
    }
  }

  /** A path that is the empty string or a lone slash has no segments: the secret goes to the root. */
  lemma RootPathsHaveNoSegments()
    ensures Segments("") == [] && Segments("/") == []
  {
    SegmentsAppend("", "");
    assert "" + "/" + "" == "/";
  }

  /** Leading, trailing and doubled slashes are ignored. */
  lemma SlashesCollapse(a: string, b: string)
    ensures Segments("/" + a) == Segments(a)
    ensures Segments(a + "/") == Segments(a)
    ensures Segments(a + "//" + b) == Segments(a + "/" + b)
  {
    RootPathsHaveNoSegments();
    SegmentsAppend("", a);
    assert "" + "/" + a == "/" + a;
    SegmentsAppend(a, "");
    assert a + "/" + "" == a + "/";
    SegmentsAppend(a + "/", b);
    assert (a + "/") + "/" + b == a + "//" + b;
    SegmentsAppend(a, b);
  }

  /** The two spellings "/a//b/" and "a/b" insert at the same location, under "a" then "b". */
  lemma SlashVariantsAgree()
    ensures Segments("/a//b/") == Segments("a/b") == ["a", "b"]
  {
    SegmentsOfName("a");
    SegmentsOfName("b");
    SegmentsAppend("a", "b");
    SlashesCollapse("a", "b");
    SlashesCollapse("a//b", "");
    SlashesCollapse("a//b/", "");
    SlashSpellings();
  }

  /** How "/a//b/" is spelled from "a" and "b". */
  lemma SlashSpellings()
    ensures "a" + "/" + "b" == "a/b"
    ensures "a" + "//" + "b" == "a//b"
    ensures "a//b" + "/" == "a//b/"
    ensures "/" + "a//b/" == "/a//b/"
  {
  }

  /** The canonical spelling of a segment list: the segments joined by single slashes. */
  function Canonical(segs: seq<string>): string
  {
    if segs == [] then "" else Join(segs)
  }

  /** Every path inserts where its canonical spelling does. */
  lemma {:induction false} CanonicalSegments(segs: seq<string>)
    requires WellFormedSegments(segs)
    ensures Segments(Canonical(segs)) == segs
  {
    if segs == [] {
      RootPathsHaveNoSegments();
    } else if |segs| == 1 {
      SegmentsOfName(segs[0]);
    } else {
      CanonicalSegments(segs[1..]);
      SegmentsOfName(segs[0]);
      SegmentsAppend(segs[0], Join(segs[1..]));
      assert segs == [segs[0]] + segs[1..];
    }
  }
}
