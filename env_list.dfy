/**
  `GetList` of env.go: a variable's value read as a list split at colons that are not
  escaped by a backslash, with every backslash-colon pair in an element turned into a colon.
  As the loop is written, the text after the last separating colon is never appended.
*/
module EnvList {
  import opened Env

  /** Go's `strings.Replace(s, "\\:", ":", -1)`: every backslash-colon pair, left to right, becomes a colon. */
  function Unescape(s: string): string {
    if |s| >= 2 && s[0] == '\\' && s[1] == ':' then ":" + Unescape(s[2..])
    else if s == [] then []
    else [s[0]] + Unescape(s[1..])
  }

  /** Text without a backslash is left as it is. */
  lemma {:induction false} UnescapePlain(s: string)
    requires forall i :: 0 <= i < |s| ==> s[i] != '\\'
    ensures Unescape(s) == s
  {
    if s != [] {
      UnescapePlain(s[1..]);
      assert s == [s[0]] + s[1..];
    }
  }


  /** s[i] is a colon that separates list elements: it is not preceded by a backslash. */
  predicate IsSeparator(s: string, i: int)
    requires 0 <= i < |s|
  {
    s[i] == ':' && (i == 0 || s[i - 1] != '\\')
  }

  predicate NoSeparator(s: string) {
    forall i :: 0 <= i < |s| ==> !IsSeparator(s, i)
  }

  /** The first separator at or after k, or |s| when there is none. */
  function NextSeparator(s: string, k: nat): (i: nat)
    requires k <= |s|
    ensures k <= i <= |s|
    ensures i < |s| ==> IsSeparator(s, i)
    ensures forall j :: k <= j < i ==> !IsSeparator(s, j)
    decreases |s| - k
  {
    if k == |s| then |s|
    else if IsSeparator(s, k) then k
    else NextSeparator(s, k + 1)
  }

  /** Text that can stand between two separators: it holds none, and a colon written after it separates. */
  predicate IsRawSegment(r: string) {
    NoSeparator(r) && (r == [] || r[|r| - 1] != '\\')
  }

  /** Each raw segment followed by a separating colon. */
  function Join(raws: seq<string>): string {
    if raws == [] then "" else raws[0] + ":" + Join(raws[1..])
  }

  /** s cut into the raw text before each separator, in order, and the text after the last one. */
  function Segments(s: string): (seq<string>, string)
    decreases |s|
  {
    var i := NextSeparator(s, 0);
    if i == |s| then ([], s)
    else
      var (raws, tail) := Segments(s[i + 1..]);
      ([s[..i]] + raws, tail)
  }

  /**
    Every string is its segments, each followed by a separating colon, then the
    trailing text; no segment and not the trailing text holds a separator.
  */
  lemma {:induction false} SegmentsSpec(s: string)
    ensures s == Join(Segments(s).0) + Segments(s).1
    ensures forall r :: r in Segments(s).0 ==> IsRawSegment(r)
    ensures NoSeparator(Segments(s).1)
    decreases |s|
  {
    var i := NextSeparator(s, 0);
    if i < |s| {
      SegmentsSpec(s[i + 1..]);
      var (raws, tail) := Segments(s[i + 1..]);
      assert Segments(s) == ([s[..i]] + raws, tail);
      FirstSegmentIsRaw(s, i);
      JoinStep(s, i, raws, tail);
      AllRawCons(s[..i], raws);
    }
  }

  lemma AllRawCons(r: string, raws: seq<string>)
    requires IsRawSegment(r) && forall x :: x in raws ==> IsRawSegment(x)
    ensures forall x :: x in [r] + raws ==> IsRawSegment(x)
  {
    assert forall x :: x in [r] + raws ==> x == r || x in raws;
  }

  /** A separator at i puts the text before it in front of the join of the rest. */
  lemma JoinStep(s: string, i: nat, raws: seq<string>, tail: string)
    requires i < |s| && s[i] == ':' && s[i + 1..] == Join(raws) + tail
    ensures s == Join([s[..i]] + raws) + tail
  {
    var r := s[..i];
    JoinCons(r, raws);
    assert (r + ":" + Join(raws)) + tail == r + ":" + (Join(raws) + tail);
    assert s == s[..i] + [s[i]] + s[i + 1..];
  }

  /** The text before the first separator holds none, and does not end in a backslash. */
  lemma FirstSegmentIsRaw(s: string, i: nat)
    requires i == NextSeparator(s, 0) < |s|
    ensures IsRawSegment(s[..i])
  {
    var r := s[..i];
    forall j | 0 <= j < i
      ensures !IsSeparator(r, j)
    {
      PrefixAgrees(s, r, j);
    }
    assert i > 0 ==> r[i - 1] == s[i - 1];
  }

  lemma JoinCons(r: string, raws: seq<string>)
    ensures Join([r] + raws) == r + ":" + Join(raws)
  {
    assert ([r] + raws)[1..] == raws;
  }

  /** A prefix of s has the separators of s below its length. */
  lemma PrefixAgrees(s: string, r: string, j: nat)
    requires j < |r| <= |s| && s[..|r|] == r
    ensures IsSeparator(s, j) == IsSeparator(r, j)
  {
    assert s[j] == r[j];
    if j > 0 {
      assert s[j - 1] == r[j - 1];
    }
  }

  /** A separator with none before it, from k on, is the next one. */
  lemma NextSeparatorAt(s: string, k: nat, m: nat)
    requires k <= m < |s| && IsSeparator(s, m)
    requires forall j :: k <= j < m ==> !IsSeparator(s, j)
    ensures NextSeparator(s, k) == m
  {
  }

  lemma NextSeparatorNone(s: string, k: nat)
    requires k <= |s|
    requires forall j :: k <= j < |s| ==> !IsSeparator(s, j)
    ensures NextSeparator(s, k) == |s|
  {
  }

  function UnescapeAll(raws: seq<string>): seq<string> {
    if raws == [] then [] else [Unescape(raws[0])] + UnescapeAll(raws[1..])
  }

  lemma {:induction false} UnescapeAllAt(raws: seq<string>)
    ensures |UnescapeAll(raws)| == |raws|
    ensures forall k :: 0 <= k < |raws| ==> UnescapeAll(raws)[k] == Unescape(raws[k])
  {
    if raws != [] {
      UnescapeAllAt(raws[1..]);
    }
  }

  /** The list `GetList` returns for the value s. */
  function Split(s: string): seq<string> {
    UnescapeAll(Segments(s).0)
  }

  /** `GetList`: (nil, false) for a missing variable, otherwise the split value and true. */
  method GetList(env: seq<string>, key: string) returns (vals: seq<string>, ok: bool)
    ensures ok <==> HasMatch(env, key)
    ensures ok ==> vals == Split(Lookup(env, key).0)
    ensures !ok ==> vals == []
  {
    var s;
    s, ok := Get(env, key);
    if !ok {
      return [], false;
    }
    vals := SplitValue(s);
  }

  /** The loop of `GetList`: a cursor i1 over s, with i0 the start of the current element. */
  method SplitValue(s: string) returns (vals: seq<string>)
    ensures vals == Split(s)
  {
    vals := [];
    var i0 := 0;
    for i1 := 0 to |s|
      invariant i0 <= i1
      invariant i0 == 0 || s[i0 - 1] == ':'
      invariant i1 <= NextSeparator(s, i0)
      invariant vals + Split(s[i0..]) == Split(s)
    {
      if s[i1] == ':' && (i1 <= i0 || s[i1 - 1] != '\\') {
        // Unescaped ':'; the text since the last one is an element.
        assert IsSeparator(s, i1);
        SplitStep(s, i0, i1);
        ghost var rest := Split(s[i1 + 1..]);
        var element := Unescape(s[i0..i1]);
        assert vals + ([element] + rest) == Split(s);
        vals := vals + [element];
        assert vals + rest == Split(s);
        i0 := i1 + 1;
      } else {
        assert !IsSeparator(s, i1);
      }
    }
    SplitEnd(s, i0);
  }

  /** Just after a separator (or at the start) the separators of a suffix are those of s. */
  lemma SeparatorShift(s: string, i0: nat, j: nat)
    requires i0 + j < |s| && (i0 == 0 || s[i0 - 1] == ':')
    ensures IsSeparator(s[i0..], j) == IsSeparator(s, i0 + j)
  {
  }

  /** One step of the loop: at a separator, the element is the text since the cursor. */
  lemma SplitStep(s: string, i0: nat, i1: nat)
    requires i0 <= i1 < |s| && (i0 == 0 || s[i0 - 1] == ':')
    requires NextSeparator(s, i0) == i1
    ensures Split(s[i0..]) == [Unescape(s[i0..i1])] + Split(s[i1 + 1..])
  {
    var t := s[i0..];
    var m := i1 - i0;
    SuffixNextSeparator(s, i0, i1);
    SplitCons(t);
    assert t[..m] == s[i0..i1];
    assert t[m + 1..] == s[i1 + 1..];
  }

  /** Seen from the cursor, the next separator is the same colon. */
  lemma SuffixNextSeparator(s: string, i0: nat, i1: nat)
    requires i0 <= i1 < |s| && (i0 == 0 || s[i0 - 1] == ':')
    requires NextSeparator(s, i0) == i1
    ensures NextSeparator(s[i0..], 0) == i1 - i0
  {
    var t := s[i0..];
    forall j | 0 <= j <= i1 - i0
      ensures IsSeparator(t, j) == IsSeparator(s, i0 + j)
    {
      SeparatorShift(s, i0, j);
    }
    NextSeparatorAt(t, 0, i1 - i0);
  }

  /** A value with a separator splits into the element before it and the split of the rest. */
  lemma SplitCons(t: string)
    requires NextSeparator(t, 0) < |t|
    ensures Split(t) == [Unescape(t[..NextSeparator(t, 0)])] + Split(t[NextSeparator(t, 0) + 1..])
  {
    var m := NextSeparator(t, 0);
    var r := t[..m];
    var raws := Segments(t[m + 1..]).0;
    assert Segments(t).0 == [r] + raws;
    assert UnescapeAll([r] + raws) == [Unescape(r)] + UnescapeAll(raws) by {
      assert ([r] + raws)[1..] == raws;
    }
  }

  /** The end of the loop: with no separator after the cursor, nothing more is appended. */
  lemma SplitEnd(s: string, i0: nat)
    requires i0 <= |s| && (i0 == 0 || s[i0 - 1] == ':')
    requires NextSeparator(s, i0) == |s|
    ensures Split(s[i0..]) == []
  {
    var t := s[i0..];
    forall j | 0 <= j < |t|
      ensures !IsSeparator(t, j)
    {
      SeparatorShift(s, i0, j);
    }
    NextSeparatorNone(t, 0);
  }

  /**
    Splitting is determined by the separators: raw segments written each followed by a
    colon, then any text without a separator, split into exactly those segments; the
    trailing text is dropped.
  */
  lemma {:induction false} SegmentsOfJoin(raws: seq<string>, tail: string)
    requires forall r :: r in raws ==> IsRawSegment(r)
    requires NoSeparator(tail)
    ensures Segments(Join(raws) + tail) == (raws, tail)
    ensures Split(Join(raws) + tail) == UnescapeAll(raws)
  {
    var s := Join(raws) + tail;
    if raws == [] {
      assert s == tail;
      NextSeparatorNone(s, 0);
    } else {
      var r := raws[0];
      var rest := Join(raws[1..]) + tail;
      assert IsRawSegment(r) by {
        assert r in raws;
      }
      assert s == r + ":" + rest;
      assert forall x :: x in raws[1..] ==> x in raws;
      SegmentsOfJoin(raws[1..], tail);
      assert s[..|r|] == r && s[|r|] == ':' && s[|r| + 1..] == rest;
      forall j | 0 <= j < |r|
        ensures !IsSeparator(s, j)
      {
        PrefixAgrees(s, r, j);
      }
      assert |r| > 0 ==> s[|r| - 1] == r[|r| - 1];
      NextSeparatorAt(s, 0, |r|);
      assert [r] + raws[1..] == raws;
    }
  }

  /** The number of separators among the first n characters of s. */
  function SeparatorCount(s: string, n: nat): nat
    requires n <= |s|
  {
    if n == 0 then 0 else SeparatorCount(s, n - 1) + (if IsSeparator(s, n - 1) then 1 else 0)
  }

  lemma {:induction false} SeparatorCountZero(s: string, n: nat)
    requires n <= |s| && forall j :: 0 <= j < n ==> !IsSeparator(s, j)
    ensures SeparatorCount(s, n) == 0
  {
    if n > 0 {
      SeparatorCountZero(s, n - 1);
    }
  }

  lemma {:induction false} SeparatorCountShift(s: string, i: nat, n: nat)
    requires i + 1 + n <= |s| && s[i] == ':'
    ensures SeparatorCount(s, i + 1 + n) == SeparatorCount(s, i + 1) + SeparatorCount(s[i + 1..], n)
  {
    if n > 0 {
      SeparatorCountShift(s, i, n - 1);
      SeparatorShift(s, i + 1, n - 1);
    }
  }

  /** `GetList` returns exactly one element per separating colon of the value. */
  lemma {:induction false} SplitLength(s: string)
    ensures |Split(s)| == SeparatorCount(s, |s|)
    decreases |s|
  {
    var i := NextSeparator(s, 0);
    if i == |s| {
      SeparatorCountZero(s, |s|);
    } else {
      var t := s[i + 1..];
      SplitLength(t);
      SeparatorCountZero(s, i);
      SeparatorCountShift(s, i, |t|);
      assert |Split(s)| == 1 + |Split(t)|;
    }
  }

  /** The writer's side of the list format: every colon of an element behind a backslash. */
  function Escape(x: string): (e: string)
    ensures |e| > 0 ==> e[0] != ':'
    ensures |x| > 0 ==> |e| > 0 && e[|e| - 1] == x[|x| - 1]
  {
    if x == [] then []
    else (if x[0] == ':' then "\\:" else [x[0]]) + Escape(x[1..])
  }

  lemma {:induction false} UnescapeEscape(x: string)
    ensures Unescape(Escape(x)) == x
  {
    if x != [] {
      var rest := Escape(x[1..]);
      UnescapeEscape(x[1..]);
      if x[0] == ':' {
        assert ("\\:" + rest)[2..] == rest;
      } else {
        assert ([x[0]] + rest)[1..] == rest;
      }
      assert x == [x[0]] + x[1..];
    }
  }

  lemma {:induction false} EscapeNoSeparator(x: string)
    ensures NoSeparator(Escape(x))
  {
    if x != [] {
      EscapeNoSeparator(x[1..]);
      var head := if x[0] == ':' then "\\:" else [x[0]];
      var rest := Escape(x[1..]);
      var e := head + rest;
      forall j | 0 <= j < |e|
        ensures !IsSeparator(e, j)
      {
        if j >= |head| {
          assert e[j] == rest[j - |head|];
          if j > |head| {
            assert IsSeparator(e, j) == IsSeparator(rest, j - |head|);
          }
        }
      }
    }
  }

  function EscapeAll(xs: seq<string>): (es: seq<string>)
    ensures |es| == |xs|
    ensures forall k :: 0 <= k < |xs| ==> es[k] == Escape(xs[k])
  {
    if xs == [] then [] else [Escape(xs[0])] + EscapeAll(xs[1..])
  }

  /** A value `GetList` reads back as xs: each element escaped and followed by a colon. */
  function Encode(xs: seq<string>): string {
    Join(EscapeAll(xs))
  }

  /** Round trip: a list whose elements do not end in a backslash is read back unchanged. */
  lemma EncodeSplit(xs: seq<string>)
    requires forall k :: 0 <= k < |xs| ==> xs[k] == [] || xs[k][|xs[k]| - 1] != '\\'
    ensures Split(Encode(xs)) == xs
  {
    var es := EscapeAll(xs);
    forall r | r in es
      ensures IsRawSegment(r)
    {
      var k :| 0 <= k < |es| && es[k] == r;
      EscapeNoSeparator(xs[k]);
    }
    SegmentsOfJoin(es, "");
    assert Encode(xs) + "" == Encode(xs);
    UnescapeAllAt(es);
    forall k | 0 <= k < |xs|
      ensures UnescapeAll(es)[k] == xs[k]
    {
      UnescapeEscape(xs[k]);
    }
  }

  /** An element ending in a backslash escapes the colon written after it, so the round trip fails. */
  lemma EncodeTrailingBackslash()
    ensures Encode(["a\\"]) == "a\\:"
    ensures Split(Encode(["a\\"])) == []
  {
    assert Escape("a\\") == "a\\" by {
      assert "a\\"[1..] == "\\" && "\\"[1..] == [];
    }
    assert Encode(["a\\"]) == "a\\:" by {
      assert EscapeAll(["a\\"]) == ["a\\"];
      assert Join(["a\\"]) == "a\\" + ":" + Join([]);
    }
    var s := "a\\:";
    assert NoSeparator(s) by {
      assert !IsSeparator(s, 2);
    }
    SegmentsOfJoin([], s);
  }

  /** A value without a separator gives the empty list. */
  lemma SplitExamplesEmpty()
    ensures Split("") == []
    ensures Split("abc") == []
  {
    SegmentsOfJoin([], "");
    assert NoSeparator("abc");
    SegmentsOfJoin([], "abc");
  }

  /** As written the loop never appends the text after the last separator. */
  lemma SplitExampleDropsLast()
    ensures Split("x:y:z") == ["x", "y"]
  {
    assert "x:y:z" == Join(["x", "y"]) + "z" by {
      assert Join(["y"]) == "y" + ":" + Join([]);
      assert Join(["x", "y"]) == "x" + ":" + Join(["y"]);
    }
    assert IsRawSegment("x") && IsRawSegment("y") && NoSeparator("z");
    SegmentsOfJoin(["x", "y"], "z");
    UnescapeAllAt(["x", "y"]);
    assert Unescape("x") == "x" && Unescape("y") == "y" by {
      assert "x"[1..] == [] && "y"[1..] == [];
    }
  }

  /** An escaped colon stays in its element, as a plain colon. */
  lemma SplitExampleEscaped()
    ensures Split("a\\:b:c") == ["a:b"]
  {
    assert "a\\:b:c" == Join(["a\\:b"]) + "c" by {
      assert Join(["a\\:b"]) == "a\\:b" + ":" + Join([]);
    }
    assert IsRawSegment("a\\:b") by {
      assert !IsSeparator("a\\:b", 2);
    }
    SegmentsOfJoin(["a\\:b"], "c");
    assert Unescape("a\\:b") == "a:b" by {
      assert "a\\:b"[1..] == "\\:b" && "\\:b"[2..] == "b" && "b"[1..] == [];
    }
  }

  /** `MustGetList`: the value of `GetList`, or a panic when the variable is missing. */
  function MustGetList(env: seq<string>, key: string): (r: Must<seq<string>>)
    ensures r.Value? <==> HasMatch(env, key)
    ensures r.Value? ==> exists i :: FirstMatchAt(env, key, i) && r.value == Split(ValueOf(env[i]))
    ensures r.Panic? ==> r == Panic(key, ListVar)
  {
    var (s, ok) := Lookup(env, key);
    if !ok then Panic(key, ListVar) else Value(Split(s))
  }
}
