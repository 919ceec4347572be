/** String helpers the job-id extraction and the CSV output are built on:
    POSIX basename, Python's `str.split(sep)`, `sep.join(parts)` and
    `str.lstrip('0')`, all on `string` (a sequence of code points). */
module Text {

  /** The text after the last '/' of `path` (the whole path when it has no '/').
      The result is the longest '/'-free suffix of `path`. */
  function Basename(path: string): (b: string)
    ensures |b| <= |path| && b == path[|path| - |b|..]
    ensures '/' !in b
    ensures |b| < |path| ==> path[|path| - |b| - 1] == '/'
  {
    if path == [] || path[|path| - 1] == '/' then []
    else Basename(path[..|path| - 1]) + [path[|path| - 1]]
  }

  /** Python's `s.split(sep)` for a one-character separator: the maximal
      `sep`-free pieces between separators, empty pieces included, so that
      "" gives [""] and "a." gives ["a", ""]. */
  function Split(s: string, sep: char): (parts: seq<string>)
    ensures |parts| >= 1
    ensures forall i :: 0 <= i < |parts| ==> sep !in parts[i]
    ensures sep !in s ==> parts == [s]
    ensures sep in s ==> |parts| >= 2
  {
    if s == [] then [[]]
    else if s[0] == sep then
      [[]] + Split(s[1..], sep)
    else
      var rest := Split(s[1..], sep);
      assert s == [s[0]] + s[1..];
      assert sep in s ==> sep in s[1..];
      [[s[0]] + rest[0]] + rest[1..]
  }

  /** Every piece of a split is made of characters of the string split. */
  lemma {:induction false} SplitPiecesWithin(s: string, sep: char)
    ensures forall i, x :: 0 <= i < |Split(s, sep)| && x in Split(s, sep)[i] ==> x in s
  {
    if s != [] {
      SplitPiecesWithin(s[1..], sep);
      assert forall x :: x in s[1..] ==> x in s;
    }
  }

  /** Python's `sep.join(parts)`. */
  function Join(parts: seq<string>, sep: char): (joined: string)
  {
    if parts == [] then []
    else if |parts| == 1 then parts[0]
    else parts[0] + [sep] + Join(parts[1..], sep)
  }

  /** Python's `s.lstrip('0')`: `s` without its leading run of '0' characters. */
  function LStripZeros(s: string): (r: string)
    ensures |r| <= |s| && r == s[|s| - |r|..]
    ensures forall i :: 0 <= i < |s| - |r| ==> s[i] == '0'
    ensures r == [] || r[0] != '0'
  {
    if s != [] && s[0] == '0' then LStripZeros(s[1..]) else s
  }

  /** An id made only of '0' characters strips to the empty text. */
  lemma StripAllZeros(s: string)
    requires forall i :: 0 <= i < |s| ==> s[i] == '0'
    ensures LStripZeros(s) == []
  {
  }

  /** Splitting after a separator-free first piece peels that piece off. */
  lemma {:induction false} SplitAfterPiece(a: string, b: string, sep: char)
    requires sep !in a
    ensures Split(a + [sep] + b, sep) == [a] + Split(b, sep)
  {
    var s := a + [sep] + b;
    if a == [] {
      assert s == [sep] + b;
      assert s[1..] == b;
    } else {
      assert s[0] == a[0];
      assert s[1..] == a[1..] + [sep] + b;
      SplitAfterPiece(a[1..], b, sep);
      assert [a[0]] + a[1..] == a;
    }
  }

  /** Joining the pieces of a split gives the string back. */
  lemma {:induction false} JoinSplit(s: string, sep: char)
    ensures Join(Split(s, sep), sep) == s
  {
    if s != [] {
      var rest := Split(s[1..], sep);
      JoinSplit(s[1..], sep);
      if s[0] == sep {
        JoinAfterEmpty(rest, sep);
        assert s == [sep] + s[1..];
      } else {
        JoinAfterChar(s[0], rest, sep);
        assert s == [s[0]] + s[1..];
      }
    }
  }

  /** An empty first piece contributes just the separator. */
  lemma JoinAfterEmpty(parts: seq<string>, sep: char)
    requires |parts| >= 1
    ensures Join([[]] + parts, sep) == [sep] + Join(parts, sep)
  {
    assert ([[]] + parts)[1..] == parts;
  }

  /** A character put in front of the first piece goes in front of the join. */
  lemma JoinAfterChar(c: char, parts: seq<string>, sep: char)
    requires |parts| >= 1
    ensures Join([[c] + parts[0]] + parts[1..], sep) == [c] + Join(parts, sep)
  {
    var joined := [[c] + parts[0]] + parts[1..];
    if |parts| > 1 {
      assert joined[1..] == parts[1..];
    }
  }

  /** Splitting a join of separator-free pieces gives the pieces back. */
  lemma {:induction false} SplitJoin(parts: seq<string>, sep: char)
    requires |parts| >= 1
    requires forall i :: 0 <= i < |parts| ==> sep !in parts[i]
    ensures Split(Join(parts, sep), sep) == parts
  {
    if |parts| == 1 {
    } else {
      SplitJoin(parts[1..], sep);
      SplitAfterPiece(parts[0], Join(parts[1..], sep), sep);
      assert [parts[0]] + parts[1..] == parts;
    }
  }

  /** Before a separator or the end, a separator-free `id` is the first piece. */
  lemma FirstPiece(id: string, post: string, sep: char)
    requires sep !in id
    requires post == [] || post[0] == sep
    ensures Split(id + post, sep)[0] == id
  {
    if post == [] {
      assert id + post == id;
    } else {
      assert id + post == id + [sep] + post[1..];
      SplitAfterPiece(id, post[1..], sep);
    }
  }

  /** In `pre.id` and `pre.id.rest`, with `pre` and `id` free of the
      separator, `id` is the second piece. */
  lemma SecondPiece(s: string, pre: string, id: string, post: string, sep: char)
    requires s == pre + [sep] + id + post
    requires sep !in pre && sep !in id
    requires post == [] || post[0] == sep
    ensures |Split(s, sep)| >= 2 && Split(s, sep)[1] == id
  {
    var rest := id + post;
    assert s == pre + [sep] + rest;
    SplitAfterPiece(pre, rest, sep);
    FirstPiece(id, post, sep);
  }

  /** A join starts with its first piece, followed by the separator when
      there are more pieces and by nothing otherwise. */
  lemma JoinStartsWithFirst(parts: seq<string>, sep: char)
    requires |parts| >= 1
    ensures |parts[0]| <= |Join(parts, sep)| && Join(parts, sep)[..|parts[0]|] == parts[0]
    ensures |parts| == 1 ==> Join(parts, sep) == parts[0]
    ensures |parts| > 1 ==> |parts[0]| < |Join(parts, sep)| && Join(parts, sep)[|parts[0]|] == sep
  {
    if |parts| > 1 {
      var rest := Join(parts[1..], sep);
      assert Join(parts, sep) == parts[0] + [sep] + rest;
    }
  }

  /** `id` sits in `s` right after the first separator, which is at `k`, and
      runs up to the next separator or to the end. */
  predicate SecondPieceAt(s: string, sep: char, id: string, k: nat)
  {
    && k + 1 + |id| <= |s|
    && sep !in s[..k] && s[k] == sep
    && s[k + 1..k + 1 + |id|] == id
    && (k + 1 + |id| < |s| ==> s[k + 1 + |id|] == sep)
  }

  /** Conversely, in a string holding the separator the second piece sits
      right after the first separator. */
  lemma SecondPieceShape(s: string, sep: char, id: string) returns (k: nat)
    requires sep in s && id == Split(s, sep)[1]
    ensures SecondPieceAt(s, sep, id, k)
  {
    var parts := Split(s, sep);
    JoinSplit(s, sep);
    var tail := parts[1..];
    var t := Join(tail, sep);
    assert s == parts[0] + [sep] + t;
    k := |parts[0]|;
    assert s[..k] == parts[0];
    assert s[k + 1..] == t;
    JoinStartsWithFirst(tail, sep);
    assert tail[0] == parts[1];
    assert s[k + 1..k + 1 + |parts[1]|] == t[..|parts[1]|];
  }

  /** Appending '/'-free text to a path appends it to the basename. */
  lemma {:induction false} BasenameAppend(path: string, tail: string)
    requires '/' !in tail
    ensures Basename(path + tail) == Basename(path) + tail
  {
    if tail != [] {
      var init := tail[..|tail| - 1];
      assert path + tail == (path + init) + [tail[|tail| - 1]];
      assert (path + tail)[..|path + tail| - 1] == path + init;
      BasenameAppend(path, init);
      assert init + [tail[|tail| - 1]] == tail;
    } else {
      assert path + tail == path;
    }
  }

  /** Regrouping of `a.b`. It exists only for the solver: stated on its own,
      the regrouping is cheap, while inside `BasenameAfterSeparator`, next to
      the recursive `Basename`, it is costly to find. */
  lemma AppendAssociates(a: string, sep: char, b: string)
    ensures a + [sep] + b == a + ([sep] + b)
    ensures a + [sep] + b + [] == a + [sep] + b
  {
  }

  /** The basename of `path.id`, for a '/'-free `id`, is that of `path`
      followed by `.id`. The trailing `+ []` lets `ExtractIdOfShape` be
      applied with an empty rest without a further regrouping step. */
  lemma BasenameAfterSeparator(path: string, sep: char, id: string)
    requires sep != '/' && '/' !in id
    ensures Basename(path + [sep] + id) == Basename(path) + [sep] + id + []
  {
    AppendAssociates(path, sep, id);
    AppendAssociates(Basename(path), sep, id);
    BasenameAppend(path, [sep] + id);
  }
}
