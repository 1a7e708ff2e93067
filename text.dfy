/**
  Python string operations used on an incoming edit frame:
  `str.split()` with no separator (runs of whitespace separate fields,
  leading and trailing whitespace is dropped) and `str.replace(c, '')`
  (every occurrence of one character is deleted).
 */
module Text {

  /** The characters Python's `str.isspace()` accepts, which are the ones
      `str.split()` and `int()` treat as whitespace. */
  predicate IsSpace(c: char) {
    c == ' ' || ('\t' <= c <= '\r') || ('\U{1C}' <= c <= '\U{1F}')
    || c == '\U{85}' || c == '\U{A0}' || c == '\U{1680}'
    || ('\U{2000}' <= c <= '\U{200A}')
    || c == '\U{2028}' || c == '\U{2029}' || c == '\U{202F}'
    || c == '\U{205F}' || c == '\U{3000}'
  }

  /** A string made of whitespace only (possibly empty). */
  predicate AllSpace(s: string) {
    forall i :: 0 <= i < |s| ==> IsSpace(s[i])
  }

  /** A string that can be a field of `str.split()`: non-empty, no whitespace. */
  predicate IsField(s: string) {
    |s| > 0 && forall i :: 0 <= i < |s| ==> !IsSpace(s[i])
  }

  /** The longest prefix of `s` that holds no whitespace. */
  function Word(s: string): (w: string)
    ensures w <= s
    ensures forall i :: 0 <= i < |w| ==> !IsSpace(w[i])
    ensures |w| == |s| || IsSpace(s[|w|])
  {
    if s == [] || IsSpace(s[0]) then [] else [s[0]] + Word(s[1..])
  }

  /** `s.split()`: the maximal runs of non-whitespace characters, in order. */
  function Split(s: string): (fields: seq<string>)
    ensures forall k :: 0 <= k < |fields| ==> IsField(fields[k])
    decreases |s|
  {
    if s == [] then []
    else if IsSpace(s[0]) then Split(s[1..])
    else
      var w := Word(s);
      [w] + Split(s[|w|..])
  }

  /** `seps[0] + fields[0] + seps[1] + ... + fields[n-1] + seps[n]`. */
  function Interleave(seps: seq<string>, fields: seq<string>): (s: string)
    requires |seps| == |fields| + 1
    decreases |fields|
  {
    if fields == [] then seps[0]
    else seps[0] + fields[0] + Interleave(seps[1..], fields[1..])
  }

  /** Separators that `str.split()` discards around `n` fields: whitespace
      only, and non-empty wherever they stand between two fields. */
  predicate Separators(seps: seq<string>, n: nat) {
    |seps| == n + 1
    && (forall k :: 0 <= k < |seps| ==> AllSpace(seps[k]))
    && (forall k :: 0 < k < n ==> |seps[k]| > 0)
  }

  predicate AllFields(fields: seq<string>) {
    forall k :: 0 <= k < |fields| ==> IsField(fields[k])
  }

  /** Leading whitespace does not change the fields. */
  lemma {:induction false} SplitSkipsSpace(ws: string, rest: string)
    requires AllSpace(ws)
    ensures Split(ws + rest) == Split(rest)
    decreases |ws|
  {
    if ws == [] {
      assert ws + rest == rest;
    } else {
      assert (ws + rest)[0] == ws[0];
      assert (ws + rest)[1..] == ws[1..] + rest;
      SplitSkipsSpace(ws[1..], rest);
    }
  }

  /** A field followed by whitespace (or by nothing) is taken whole. */
  lemma {:induction false} WordOfField(f: string, rest: string)
    requires IsField(f)
    requires rest == [] || IsSpace(rest[0])
    ensures Word(f + rest) == f
    decreases |f|
  {
    assert (f + rest)[0] == f[0];
    if |f| == 1 {
      assert (f + rest)[1..] == rest;
    } else {
      assert (f + rest)[1..] == f[1..] + rest;
      WordOfField(f[1..], rest);
    }
  }

  /** Splitting recovers exactly the fields that were laid out between
      well-formed separators. */
  lemma {:induction false} SplitInterleave(seps: seq<string>, fields: seq<string>)
    requires Separators(seps, |fields|) && AllFields(fields)
    ensures Split(Interleave(seps, fields)) == fields
    decreases |fields|
  {
    if fields == [] {
      SplitSkipsSpace(seps[0], []);
      assert seps[0] + [] == seps[0];
    } else {
      var f := fields[0];
      var tail := Interleave(seps[1..], fields[1..]);
      assert Separators(seps[1..], |fields| - 1);
      assert AllFields(fields[1..]);
      assert tail == [] || IsSpace(tail[0]) by {
        if |fields| == 1 {
          assert tail == seps[1];
        } else {
          assert |seps[1]| > 0;
          assert tail == seps[1] + fields[1] + Interleave(seps[2..], fields[2..]);
        }
      }
      calc {
        Split(Interleave(seps, fields));
        { assert Interleave(seps, fields) == seps[0] + (f + tail); }
        Split(seps[0] + (f + tail));
        { SplitSkipsSpace(seps[0], f + tail); }
        Split(f + tail);
        { WordOfField(f, tail); assert (f + tail)[|f|..] == tail; }
        [f] + Split(tail);
        { SplitInterleave(seps[1..], fields[1..]); }
        [f] + fields[1..];
      }
    }
  }

  /** A layout whose first separator is empty starts with its first field. */
  lemma LayoutStart(seps: seq<string>, fields: seq<string>)
    requires |seps| == |fields| + 1 && |fields| > 0 && seps[0] == [] && IsField(fields[0])
    ensures |Interleave(seps, fields)| > 0 && Interleave(seps, fields)[0] == fields[0][0]
  {
    assert Interleave(seps, fields) == fields[0] + Interleave(seps[1..], fields[1..]);
  }

  /** One more whitespace character in front of the first separator keeps
      the separators well-formed. */
  lemma SeparatorsConsSpace(c: char, seps: seq<string>, n: nat)
    requires IsSpace(c) && Separators(seps, n)
    ensures Separators([[c] + seps[0]] + seps[1..], n)
  {
    var seps2 := [[c] + seps[0]] + seps[1..];
    forall i | 0 <= i < |seps2[0]| ensures IsSpace(seps2[0][i]) {
      if i > 0 { assert seps2[0][i] == seps[0][i - 1]; }
    }
    assert forall k :: 0 < k < |seps2| ==> seps2[k] == seps[k];
  }

  /** Text in front of the first separator is text in front of the layout. */
  lemma InterleaveConsFirst(x: string, seps: seq<string>, fields: seq<string>)
    requires |seps| == |fields| + 1
    ensures Interleave([x + seps[0]] + seps[1..], fields) == x + Interleave(seps, fields)
  {
    var seps2 := [x + seps[0]] + seps[1..];
    assert seps2[0] == x + seps[0];
    assert seps2[1..] == seps[1..];
    if fields != [] {
      var a, b, c := seps[0], fields[0], Interleave(seps[1..], fields[1..]);
      assert Interleave(seps2, fields) == (x + a) + b + c;
      assert Interleave(seps, fields) == a + b + c;
      ConcatAssoc(x, a, b, c);
    }
  }

  /** Regrouping a concatenation, kept apart from `InterleaveConsFirst` so
      that the solver meets it with no other facts in scope. */
  lemma ConcatAssoc(x: string, a: string, b: string, c: string)
    ensures (x + a) + b + c == x + (a + b + c)
  {
  }

  /** One more whitespace character in front joins the first separator. */
  lemma LayoutConsSpace(c: char, seps: seq<string>, fields: seq<string>)
    requires IsSpace(c) && Separators(seps, |fields|)
    ensures Separators([[c] + seps[0]] + seps[1..], |fields|)
    ensures Interleave([[c] + seps[0]] + seps[1..], fields) == [c] + Interleave(seps, fields)
  {
    SeparatorsConsSpace(c, seps, |fields|);
    InterleaveConsFirst([c], seps, fields);
  }

  /** A field in front of a layout that starts with whitespace (or is empty)
      becomes its first field. */
  lemma LayoutConsField(w: string, seps: seq<string>, fields: seq<string>)
    requires IsField(w) && Separators(seps, |fields|)
    requires fields != [] ==> |seps[0]| > 0
    ensures Separators([[]] + seps, |fields| + 1)
    ensures Interleave([[]] + seps, [w] + fields) == w + Interleave(seps, fields)
  {
    var seps2 := [[]] + seps;
    var fields2 := [w] + fields;
    assert seps2[1..] == seps && fields2[1..] == fields && fields2 != [];
    assert Interleave(seps2, fields2) == seps2[0] + fields2[0] + Interleave(seps, fields);
    assert [] + w == w;
    forall k | 0 <= k < |seps2| ensures AllSpace(seps2[k]) {
      if k > 0 { assert seps2[k] == seps[k - 1]; }
    }
    forall k | 0 < k < |fields| + 1 ensures |seps2[k]| > 0 {
      assert seps2[k] == seps[k - 1];
    }
  }

  /** Conversely, every string is its fields laid out between well-formed
      separators. */
  lemma {:induction false} SplitLayout(s: string)
    ensures exists seps :: Separators(seps, |Split(s)|) && Interleave(seps, Split(s)) == s
    decreases |s|
  {
    if s == [] {
      var seps: seq<string> := [[]];
      assert Split(s) == [];
      assert Separators(seps, 0) && Interleave(seps, []) == s;
    } else if IsSpace(s[0]) {
      SplitLayout(s[1..]);
      var seps :| Separators(seps, |Split(s[1..])|) && Interleave(seps, Split(s[1..])) == s[1..];
      LayoutConsSpace(s[0], seps, Split(s[1..]));
      assert [s[0]] + s[1..] == s;
      assert Split(s) == Split(s[1..]);
      var seps2 := [[s[0]] + seps[0]] + seps[1..];
      assert Separators(seps2, |Split(s)|) && Interleave(seps2, Split(s)) == s;
    } else {
      var w := Word(s);
      var rest := s[|w|..];
      SplitLayout(rest);
      var seps :| Separators(seps, |Split(rest)|) && Interleave(seps, Split(rest)) == rest;
      if Split(rest) != [] && |seps[0]| == 0 {
        LayoutStart(seps, Split(rest));
        assert false;
      }
      LayoutConsField(w, seps, Split(rest));
      assert w + rest == s;
      assert Split(s) == [w] + Split(rest);
      var seps2 := [[]] + seps;
      assert Separators(seps2, |Split(s)|) && Interleave(seps2, Split(s)) == s;
    }
  }

  /** `Split` is characterised by layout: `Split(s) == fields` exactly when
      `s` is `fields` laid out between well-formed separators. */
  lemma SplitCharacterisation(s: string, fields: seq<string>)
    requires AllFields(fields)
    ensures Split(s) == fields
            <==> exists seps :: Separators(seps, |fields|) && Interleave(seps, fields) == s
  {
    if Split(s) == fields {
      SplitLayout(s);
    }
    if exists seps :: Separators(seps, |fields|) && Interleave(seps, fields) == s {
      var seps :| Separators(seps, |fields|) && Interleave(seps, fields) == s;
      SplitInterleave(seps, fields);
    }
  }

  /** `s.replace(c, '')`: `s` with every occurrence of `c` deleted. */
  function Without(s: string, c: char): (r: string)
    ensures c !in r
    ensures |r| <= |s|
    ensures c !in s ==> r == s
  {
    if s == [] then []
    else if s[0] == c then Without(s[1..], c)
    else [s[0]] + Without(s[1..], c)
  }

  /** Deleting a character works piecewise: the remaining characters keep
      their order. */
  lemma {:induction false} WithoutConcat(a: string, b: string, c: char)
    ensures Without(a + b, c) == Without(a, c) + Without(b, c)
    decreases |a|
  {
    if a == [] {
      assert a + b == b;
    } else {
      assert (a + b)[0] == a[0];
      assert (a + b)[1..] == a[1..] + b;
      WithoutConcat(a[1..], b, c);
    }
  }

  /** Deleting a character removes exactly its occurrences. */
  lemma {:induction false} WithoutCounts(s: string, c: char)
    ensures multiset(Without(s, c)) == multiset(s)[c := 0]
    decreases |s|
  {
    if s != [] {
      WithoutCounts(s[1..], c);
      assert s == [s[0]] + s[1..];
    }
  }
}
