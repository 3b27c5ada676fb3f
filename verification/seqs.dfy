/** Generic sequence operations that mirror the Python string and bytes
    methods the client relies on: `startswith`, `endswith`, `in`,
    `split(sep)`, `split()`, `strip()` and `replace(x, '')`. */
module Seqs {
  import opened Wrappers

  predicate StartsWith<T(==)>(s: seq<T>, p: seq<T>) {
    |p| <= |s| && s[..|p|] == p
  }

  predicate EndsWith<T(==)>(s: seq<T>, p: seq<T>) {
    |p| <= |s| && s[|s| - |p|..] == p
  }

  /** Python's `p in s` for strings and bytes: some suffix of `s` starts with `p`. */
  predicate Contains<T(==)>(s: seq<T>, p: seq<T>)
    decreases |s|
  {
    StartsWith(s, p) || (|s| > 0 && Contains(s[1..], p))
  }

  /** An occurrence at a known position is enough for `Contains`. */
  lemma {:induction false} ContainsAt<T>(s: seq<T>, p: seq<T>, i: nat)
    requires i <= |s| && StartsWith(s[i..], p)
    ensures Contains(s, p)
    decreases i
  {
    if i > 0 {
      assert s[1..][i - 1..] == s[i..];
      ContainsAt(s[1..], p, i - 1);
    } else {
      assert s[0..] == s;
    }
  }

  /** `Contains` holds exactly when some position starts an occurrence. */
  lemma {:induction false} ContainsWitness<T>(s: seq<T>, p: seq<T>) returns (i: nat)
    requires Contains(s, p)
    ensures i <= |s| && StartsWith(s[i..], p)
    decreases |s|
  {
    if StartsWith(s, p) {
      i := 0;
      assert s[0..] == s;
    } else {
      var j := ContainsWitness(s[1..], p);
      assert s[1..][j..] == s[j + 1..];
      i := j + 1;
    }
  }

  /** An occurrence inside a prefix is an occurrence in the whole. */
  lemma {:induction false} ContainsExtend<T>(s: seq<T>, t: seq<T>, p: seq<T>)
    requires Contains(s, p)
    ensures Contains(s + t, p)
  {
    var i := ContainsWitness(s, p);
    assert (s + t)[i..][..|p|] == s[i..][..|p|];
    ContainsAt(s + t, p, i);
  }

  /** An occurrence of a piece of an occurrence is an occurrence. */
  lemma ContainsWithin<T>(s: seq<T>, p: seq<T>, q: seq<T>)
    requires Contains(s, p) && Contains(p, q)
    ensures Contains(s, q)
  {
    var i := ContainsWitness(s, p);
    var j := ContainsWitness(p, q);
    assert i + j + |q| <= |s| by {
      assert |q| <= |p| - j && |p| <= |s| - i;
    }
    forall k | 0 <= k < |q|
      ensures s[i + j..][k] == q[k]
    {
      assert q[k] == p[j..][k] == p[j + k];
      assert p[j + k] == s[i..][j + k] == s[i + j + k];
    }
    assert s[i + j..][..|q|] == q;
    ContainsAt(s, q, i + j);
  }

  /** A one-element needle is contained exactly when the element is a member. */
  lemma {:induction false} ContainsSingleton<T>(s: seq<T>, x: T)
    ensures Contains(s, [x]) <==> x in s
    decreases |s|
  {
    if |s| > 0 {
      ContainsSingleton(s[1..], x);
      assert x in s <==> s[0] == x || x in s[1..];
    }
  }

  // ---------------------------------------------------------------------
  // split(sep) and its inverse

  /** `sep.join(parts)`. */
  function JoinWith<T>(parts: seq<seq<T>>, sep: T): seq<T>
    decreases |parts|
  {
    if |parts| == 0 then []
    else if |parts| == 1 then parts[0]
    else parts[0] + [sep] + JoinWith(parts[1..], sep)
  }

  /** Python's `s.split(sep)` for a one-element separator: always at least one
      part, no part holds the separator, and joining the parts gives `s` back. */
  function SplitOn<T(==)>(s: seq<T>, sep: T): (parts: seq<seq<T>>)
    ensures |parts| >= 1
    ensures forall i :: 0 <= i < |parts| ==> sep !in parts[i]
    ensures JoinWith(parts, sep) == s
    decreases |s|
  {
    if |s| == 0 then [[]]
    else if s[0] == sep then
      var rest := SplitOn(s[1..], sep);
      assert JoinWith([[]] + rest, sep) == [] + [sep] + JoinWith(rest, sep) by {
        assert ([[]] + rest)[1..] == rest;
      }
      [[]] + rest
    else
      var rest := SplitOn(s[1..], sep);
      var parts := [[s[0]] + rest[0]] + rest[1..];
      assert JoinWith(parts, sep) == [s[0]] + JoinWith(rest, sep) by {
        if |rest| > 1 {
          assert parts[1..] == rest[1..];
          assert JoinWith(rest, sep) == rest[0] + [sep] + JoinWith(rest[1..], sep);
        }
      }
      assert [s[0]] + s[1..] == s;
      parts
  }

  /** Splitting what `JoinWith` produced recovers the parts, provided no part
      holds the separator. */
  lemma {:induction false} SplitJoin<T>(parts: seq<seq<T>>, sep: T)
    requires |parts| >= 1
    requires forall i :: 0 <= i < |parts| ==> sep !in parts[i]
    ensures SplitOn(JoinWith(parts, sep), sep) == parts
    decreases |parts|, |parts[0]|
  {
    var p := parts[0];
    if |p| == 0 {
      if |parts| > 1 {
        var tail := parts[1..];
        SplitJoin(tail, sep);
        assert JoinWith(parts, sep) == [sep] + JoinWith(tail, sep);
        assert ([sep] + JoinWith(tail, sep))[1..] == JoinWith(tail, sep);
        assert [[]] + tail == parts;
      }
    } else {
      var shorter := [p[1..]] + parts[1..];
      assert forall i :: 0 <= i < |shorter| ==> sep !in shorter[i] by {
        assert forall x :: x in p[1..] ==> x in p;
        assert forall i :: 1 <= i < |shorter| ==> shorter[i] == parts[i];
      }
      SplitJoin(shorter, sep);
      assert JoinWith(parts, sep) == [p[0]] + JoinWith(shorter, sep) by {
        if |parts| > 1 {
          assert shorter[1..] == parts[1..];
        }
      }
      var j := JoinWith(parts, sep);
      assert j[0] == p[0] && j[1..] == JoinWith(shorter, sep);
      assert j[0] != sep by { assert p[0] in p; }
      assert [[p[0]] + p[1..]] + parts[1..] == parts by {
        assert [p[0]] + p[1..] == p;
      }
    }
  }

  // ---------------------------------------------------------------------
  // split() on runs of whitespace

  /** The longest prefix of `s` free of elements of `ws`. */
  function Token<T(==)>(s: seq<T>, ws: set<T>): (w: seq<T>)
    ensures |w| <= |s| && w == s[..|w|]
    ensures forall j :: 0 <= j < |w| ==> w[j] !in ws
    ensures |w| < |s| ==> s[|w|] in ws
    decreases |s|
  {
    if |s| == 0 || s[0] in ws then [] else [s[0]] + Token(s[1..], ws)
  }

  /** The token of a sequence is the one whitespace-free prefix that ends at
      whitespace or at the end. */
  lemma {:induction false} TokenUnique<T>(s: seq<T>, w: seq<T>, ws: set<T>)
    requires |w| <= |s| && s[..|w|] == w
    requires forall j :: 0 <= j < |w| ==> w[j] !in ws
    requires |w| == |s| || s[|w|] in ws
    ensures Token(s, ws) == w
    decreases |w|
  {
    if |w| > 0 {
      assert s[0] == w[0];
      assert s[1..][..|w| - 1] == w[1..];
      TokenUnique(s[1..], w[1..], ws);
      assert [w[0]] + w[1..] == w;
    }
  }

  /** Python's `s.split()`: the maximal runs of elements outside `ws`, in order. */
  function Words<T(==)>(s: seq<T>, ws: set<T>): (r: seq<seq<T>>)
    ensures forall i :: 0 <= i < |r| ==> |r[i]| > 0
    ensures forall i, j :: 0 <= i < |r| && 0 <= j < |r[i]| ==> r[i][j] !in ws
    decreases |s|
  {
    if |s| == 0 then []
    else if s[0] in ws then Words(s[1..], ws)
    else
      var w := Token(s, ws);
      [w] + Words(s[|w|..], ws)
  }

  /** The token of a word followed by a separator (or nothing) is the word. */
  lemma {:induction false} TokenOfWord<T>(w: seq<T>, t: seq<T>, ws: set<T>)
    requires forall j :: 0 <= j < |w| ==> w[j] !in ws
    requires |t| == 0 || t[0] in ws
    ensures Token(w + t, ws) == w
    decreases |w|
  {
    if |w| == 0 {
      assert w + t == t;
    } else {
      assert (w + t)[1..] == w[1..] + t;
      TokenOfWord(w[1..], t, ws);
      assert [w[0]] + w[1..] == w;
    }
  }

  /** Joining non-empty, whitespace-free words with a whitespace separator and
      splitting again gives the words back. */
  lemma {:induction false} WordsJoin<T>(words: seq<seq<T>>, sep: T, ws: set<T>)
    requires sep in ws
    requires forall i :: 0 <= i < |words| ==> |words[i]| > 0
    requires forall i, j :: 0 <= i < |words| && 0 <= j < |words[i]| ==> words[i][j] !in ws
    ensures Words(JoinWith(words, sep), ws) == words
    decreases |words|
  {
    if |words| == 0 {
    } else {
      var w := words[0];
      var tail := words[1..];
      var rest := if |tail| == 0 then [] else [sep] + JoinWith(tail, sep);
      var s := JoinWith(words, sep);
      assert s == w + rest;
      TokenOfWord(w, rest, ws);
      assert s[0] == w[0] && w[0] !in ws;
      assert s[|w|..] == rest;
      WordsJoin(tail, sep, ws);
      if |tail| > 0 {
        assert rest[1..] == JoinWith(tail, sep);
      }
      assert Words(rest, ws) == Words(JoinWith(tail, sep), ws);
      assert [w] + tail == words;
    }
  }

  /** Python's `s.split(maxsplit=1)`: the first word and, if anything but
      whitespace follows it, the rest from the next non-whitespace element. */
  function SplitFirstWord<T(==)>(s: seq<T>, ws: set<T>): (r: seq<seq<T>>)
    ensures |r| <= 2
    ensures |r| == 0 <==> forall i :: 0 <= i < |s| ==> s[i] in ws
    ensures |r| > 0 ==> |r[0]| > 0 && (forall j :: 0 <= j < |r[0]| ==> r[0][j] !in ws)
    ensures |r| == 2 ==> |r[1]| > 0 && r[1][0] !in ws
  {
    var t := TrimLeft(s, ws);
    if |t| == 0 then []
    else
      var key := Token(t, ws);
      var rest := TrimLeft(t[|key|..], ws);
      if |rest| == 0 then [key] else [key, rest]
  }

  /** A word, whitespace, and a rest that starts with no whitespace split back
      into the word and the rest. */
  lemma SplitFirstWordOf<T>(w: seq<T>, sep: seq<T>, rest: seq<T>, ws: set<T>)
    requires |w| > 0 && forall j :: 0 <= j < |w| ==> w[j] !in ws
    requires |sep| > 0 && forall j :: 0 <= j < |sep| ==> sep[j] in ws
    requires |rest| > 0 && rest[0] !in ws
    ensures SplitFirstWord(w + sep + rest, ws) == [w, rest]
  {
    var s := w + sep + rest;
    assert TrimLeft(s, ws) == s by {
      assert s[0] == w[0];
    }
    TokenUnique(s, w, ws);
    assert s[|w|..] == sep + rest;
    TrimLeftRun(sep, rest, ws);
  }

  /** Trimming a run of whitespace in front of a non-whitespace start. */
  lemma {:induction false} TrimLeftRun<T>(sep: seq<T>, rest: seq<T>, ws: set<T>)
    requires forall j :: 0 <= j < |sep| ==> sep[j] in ws
    requires |rest| > 0 && rest[0] !in ws
    ensures TrimLeft(sep + rest, ws) == rest
    decreases |sep|
  {
    if |sep| == 0 {
      assert sep + rest == rest;
    } else {
      assert (sep + rest)[1..] == sep[1..] + rest;
      TrimLeftRun(sep[1..], rest, ws);
    }
  }

  /** Python's `s.split(sep, 1)`: the parts before and after the first `sep`. */
  function SplitOnce<T(==)>(s: seq<T>, sep: T): (r: Option<(seq<T>, seq<T>)>)
    ensures r.None? <==> sep !in s
    ensures r.Some? ==> sep !in r.value.0 && s == r.value.0 + [sep] + r.value.1
    decreases |s|
  {
    if |s| == 0 then None
    else if s[0] == sep then Some(([], s[1..]))
    else
      match SplitOnce(s[1..], sep)
      case None => None
      case Some((a, b)) => Some(([s[0]] + a, b))
  }

  /** The part before the separator keeps out whatever the whole keeps out. */
  lemma SplitOnceKeepsOut<T>(s: seq<T>, sep: T, ws: set<T>)
    requires forall j :: 0 <= j < |s| ==> s[j] !in ws
    requires SplitOnce(s, sep).Some?
    ensures forall j :: 0 <= j < |SplitOnce(s, sep).value.0| ==> SplitOnce(s, sep).value.0[j] !in ws
  {
    var a := SplitOnce(s, sep).value.0;
    forall j | 0 <= j < |a|
      ensures a[j] !in ws
    {
      assert a[j] == s[j];
    }
  }

  /** Splitting at the first separator undoes gluing two parts with it, when
      the first part holds no separator. */
  lemma {:induction false} SplitOnceOf<T>(a: seq<T>, sep: T, b: seq<T>)
    requires sep !in a
    ensures SplitOnce(a + [sep] + b, sep) == Some((a, b))
    decreases |a|
  {
    var s := a + [sep] + b;
    if |a| > 0 {
      assert s[0] == a[0] != sep;
      assert s[1..] == a[1..] + [sep] + b;
      SplitOnceOf(a[1..], sep, b);
      assert [a[0]] + a[1..] == a;
    } else {
      assert s[1..] == b;
    }
  }

  // ---------------------------------------------------------------------
  // strip() and replace(x, '')

  function TrimLeft<T(==)>(s: seq<T>, ws: set<T>): (r: seq<T>)
    ensures |r| <= |s| && r == s[|s| - |r|..]
    ensures |r| > 0 ==> r[0] !in ws
    ensures forall i :: 0 <= i < |s| - |r| ==> s[i] in ws
    decreases |s|
  {
    if |s| > 0 && s[0] in ws then TrimLeft(s[1..], ws) else s
  }

  function TrimRight<T(==)>(s: seq<T>, ws: set<T>): (r: seq<T>)
    ensures |r| <= |s| && r == s[..|r|]
    ensures |r| > 0 ==> r[|r| - 1] !in ws
    ensures forall i :: |r| <= i < |s| ==> s[i] in ws
    decreases |s|
  {
    if |s| > 0 && s[|s| - 1] in ws then TrimRight(s[..|s| - 1], ws) else s
  }

  /** Python's `s.strip()`: drop leading and trailing elements of `ws`. */
  function Strip<T(==)>(s: seq<T>, ws: set<T>): seq<T>
  {
    TrimRight(TrimLeft(s, ws), ws)
  }

  /** `Strip` keeps the slice from the first kept element of the left trim. */
  lemma StripIsSlice<T>(s: seq<T>, ws: set<T>) returns (i: nat, j: nat)
    ensures i == |s| - |TrimLeft(s, ws)| && j == i + |Strip(s, ws)|
    ensures i <= j <= |s| && Strip(s, ws) == s[i..j]
  {
    var l := TrimLeft(s, ws);
    i := |s| - |l|;
    var r := TrimRight(l, ws);
    j := i + |r|;
    forall k | 0 <= k < |r|
      ensures r[k] == s[i + k]
    {
      assert r[k] == l[k] && l[k] == s[i + k];
    }
    assert r == s[i..j];
  }

  /** Everything after that slice was trimmed on the right. */
  lemma StripTail<T>(s: seq<T>, ws: set<T>)
    ensures forall k :: |s| - |TrimLeft(s, ws)| + |Strip(s, ws)| <= k < |s| ==> s[k] in ws
  {
    var l := TrimLeft(s, ws);
    var i := |s| - |l|;
    var r := TrimRight(l, ws);
    forall k | i + |r| <= k < |s|
      ensures s[k] in ws
    {
      assert l[k - i] in ws;
      assert s[k] == l[k - i];
    }
  }

  /** What `Strip` keeps has no whitespace at either end. */
  lemma StripEnds<T>(s: seq<T>, ws: set<T>)
    ensures |Strip(s, ws)| > 0 ==> Strip(s, ws)[0] !in ws && Strip(s, ws)[|Strip(s, ws)| - 1] !in ws
  {
    var l := TrimLeft(s, ws);
    var r := TrimRight(l, ws);
    if |r| > 0 {
      assert r[0] == l[0];
    }
  }

  /** What `Strip` keeps is one slice of the input, bounded by non-whitespace. */
  lemma StripSlice<T>(s: seq<T>, ws: set<T>) returns (i: nat, j: nat)
    ensures i <= j <= |s| && Strip(s, ws) == s[i..j]
    ensures forall k :: 0 <= k < i ==> s[k] in ws
    ensures forall k :: j <= k < |s| ==> s[k] in ws
    ensures i < j ==> s[i] !in ws && s[j - 1] !in ws
  {
    i, j := StripIsSlice(s, ws);
    StripTail(s, ws);
    StripEnds(s, ws);
    var t := Strip(s, ws);
    if i < j {
      assert t[0] == s[i] && t[j - i - 1] == s[j - 1];
    }
  }

  /** `StripSlice` as a fact about some slice. */
  lemma StripSliceExists<T>(s: seq<T>, ws: set<T>)
    ensures exists i, j :: && 0 <= i <= j <= |s| && Strip(s, ws) == s[i..j]
                           && (forall k :: 0 <= k < i ==> s[k] in ws)
                           && (forall k :: j <= k < |s| ==> s[k] in ws)
  {
    var i, j := StripSlice(s, ws);
  }

  /** What `Strip` keeps comes from the input and has no whitespace at
      either end. */
  lemma StripEdges<T>(s: seq<T>, ws: set<T>)
    ensures forall k :: 0 <= k < |Strip(s, ws)| ==> Strip(s, ws)[k] in s
    ensures |Strip(s, ws)| > 0 ==> Strip(s, ws)[0] !in ws && Strip(s, ws)[|Strip(s, ws)| - 1] !in ws
  {
    var i, j := StripSlice(s, ws);
    assert forall k :: 0 <= k < j - i ==> s[i..j][k] == s[i + k];
  }

  /** A sequence with no whitespace at either end is its own strip. */
  lemma StripClean<T>(s: seq<T>, ws: set<T>)
    requires |s| > 0 ==> s[0] !in ws && s[|s| - 1] !in ws
    ensures Strip(s, ws) == s
  {
    var i, j := StripSlice(s, ws);
    assert |s| > 0 ==> i == 0 && j == |s|;
    assert s[0..|s|] == s;
  }

  /** Stripping twice is stripping once. */
  lemma StripIdempotent<T>(s: seq<T>, ws: set<T>)
    ensures Strip(Strip(s, ws), ws) == Strip(s, ws)
  {
    var t := Strip(s, ws);
    if |t| > 0 {
      assert t[0] !in ws by {
        var i, j := StripSlice(s, ws);
      }
    }
  }

  /** Python's `s.replace(x, '')`: every occurrence of `x` removed, order kept. */
  function RemoveAll<T(==)>(s: seq<T>, x: T): (r: seq<T>)
    ensures x !in r
    ensures |r| <= |s|
    ensures forall i :: 0 <= i < |r| ==> r[i] in s
    ensures forall i :: 0 <= i < |s| && s[i] != x ==> s[i] in r
    ensures multiset(r) == multiset(s)[x := 0]
    decreases |s|
  {
    if |s| == 0 then []
    else
      assert s == [s[0]] + s[1..];
      if s[0] == x then RemoveAll(s[1..], x)
      else [s[0]] + RemoveAll(s[1..], x)
  }

  /** Removing distributes over concatenation, so the order of what is kept
      is the order of the input. */
  lemma {:induction false} RemoveAllAppend<T>(a: seq<T>, b: seq<T>, x: T)
    ensures RemoveAll(a + b, x) == RemoveAll(a, x) + RemoveAll(b, x)
    decreases |a|
  {
    if |a| == 0 {
      assert a + b == b;
    } else {
      assert (a + b)[0] == a[0];
      assert (a + b)[1..] == a[1..] + b;
      RemoveAllAppend(a[1..], b, x);
    }
  }

  /** The position of the first element satisfying `p`: a Python `for` loop
      that stops at the first match with `break`. */
  function FirstIndex<T>(s: seq<T>, p: T -> bool): (r: Option<nat>)
    ensures r.Some? ==> r.value < |s| && p(s[r.value])
    ensures r.Some? ==> forall k :: 0 <= k < r.value ==> !p(s[k])
    ensures r.None? <==> forall k :: 0 <= k < |s| ==> !p(s[k])
    decreases |s|
  {
    if |s| == 0 then None
    else if p(s[0]) then Some(0)
    else
      match FirstIndex(s[1..], p)
      case None => None
      case Some(i) => Some(i + 1)
  }

  /** When exactly one element satisfies `p`, it is the first. */
  lemma FirstIndexOnly<T>(s: seq<T>, p: T -> bool, i: nat)
    requires i < |s| && p(s[i])
    requires forall k :: 0 <= k < |s| && p(s[k]) ==> k == i
    ensures FirstIndex(s, p) == Some(i)
  {
  }
}
