/** String operations the font viewer uses: Rust's ordering of `String`, `str::contains`,
    `str::split("|")` and its inverse `join("|")`. */
module Text {
  import opened SeqOps

  /** The pattern delimiter of the family filter. */
  const Bar: char := '|'

  /** Rust's `Ord` for `String`: lexicographic on UTF-8 bytes, which orders exactly as
      lexicographic on code points. A proper prefix comes first. */
  predicate LexLe(a: string, b: string): (r: bool)
    ensures a <= b ==> r
    ensures |a| > 0 && |b| > 0 && a[0] < b[0] ==> r
  {
    |a| == 0 || (|b| > 0 && (a[0] < b[0] || (a[0] == b[0] && LexLe(a[1..], b[1..]))))
  }

  lemma {:induction false} LexLeTotal(a: string, b: string)
    ensures LexLe(a, b) || LexLe(b, a)
  {
    if |a| > 0 && |b| > 0 && a[0] == b[0] {
      LexLeTotal(a[1..], b[1..]);
    }
  }

  lemma {:induction false} LexLeAntisymmetric(a: string, b: string)
    requires LexLe(a, b) && LexLe(b, a)
    ensures a == b
  {
    if |a| > 0 && |b| > 0 {
      LexLeAntisymmetric(a[1..], b[1..]);
      assert a == [a[0]] + a[1..];
      assert b == [b[0]] + b[1..];
    }
  }

  lemma {:induction false} LexLeTransitive(a: string, b: string, c: string)
    requires LexLe(a, b) && LexLe(b, c)
    ensures LexLe(a, c)
  {
    if |a| > 0 && |b| > 0 && |c| > 0 && a[0] == b[0] && b[0] == c[0] {
      LexLeTransitive(a[1..], b[1..], c[1..]);
    }
  }

  lemma LexLeIsTotalOrder()
    ensures TotalOrder(LexLe)
  {
    forall a, b
      ensures LexLe(a, b) || LexLe(b, a)
    {
      LexLeTotal(a, b);
    }
    forall a, b | LexLe(a, b) && LexLe(b, a)
      ensures a == b
    {
      LexLeAntisymmetric(a, b);
    }
    forall a, b, c | LexLe(a, b) && LexLe(b, c)
      ensures LexLe(a, c)
    {
      LexLeTransitive(a, b, c);
    }
  }

  /** `p` occurs in `s` starting at position `i`. */
  ghost predicate OccursAt(p: string, s: string, i: int) {
    0 <= i && i + |p| <= |s| && s[i..i + |p|] == p
  }

  ghost predicate Occurs(p: string, s: string) {
    exists i :: OccursAt(p, s, i)
  }

  /** `s.contains(p)`: tries every start position from the left. */
  function Contains(s: string, p: string): (r: bool)
    ensures |p| == 0 ==> r
    ensures r ==> |p| <= |s|
    decreases |s|
  {
    if |p| > |s| then false
    else if s[..|p|] == p then true
    else Contains(s[1..], p)
  }

  /** An occurrence in the tail of `s` is an occurrence in `s`, one position later. */
  lemma OccursAtTail(p: string, s: string, i: int)
    requires |s| > 0 && 0 <= i
    ensures OccursAt(p, s[1..], i) <==> OccursAt(p, s, i + 1)
  {
    if 0 <= i && i + |p| <= |s| - 1 {
      assert s[1..][i..i + |p|] == s[i + 1..i + 1 + |p|];
    }
  }

  lemma {:induction false} ContainsIsOccurs(s: string, p: string)
    ensures Contains(s, p) <==> Occurs(p, s)
    decreases |s|
  {
    if |p| > |s| {
    } else if s[..|p|] == p {
      assert OccursAt(p, s, 0);
    } else {
      ContainsIsOccurs(s[1..], p);
      if Occurs(p, s[1..]) {
        var i :| OccursAt(p, s[1..], i);
        OccursAtTail(p, s, i);
      }
      if Occurs(p, s) {
        var i :| OccursAt(p, s, i);
        assert i != 0;
        OccursAtTail(p, s, i - 1);
      }
    }
  }

  /** `parts` with `w` appended to its last piece. */
  function ExtendLast(parts: seq<string>, w: string): seq<string>
    requires |parts| > 0
  {
    parts[..|parts| - 1] + [parts[|parts| - 1] + w]
  }

  /** `s.split("|")`, collected: the pieces between delimiters, from left to right, including
      empty ones. Defined by adding one character at a time to the end of `s`. */
  function Split(s: string): (parts: seq<string>)
    ensures |parts| > 0
    ensures forall k :: 0 <= k < |parts| ==> Bar !in parts[k]
    decreases |s|
  {
    if |s| == 0 then [""]
    else
      var init := Split(s[..|s| - 1]);
      var c := s[|s| - 1];
      assert s == s[..|s| - 1] + [c];
      if c == Bar then init + [""] else ExtendLast(init, [c])
  }

  /** There is one piece more than there are delimiters. */
  lemma {:induction false} SplitCount(s: string)
    ensures |Split(s)| == multiset(s)[Bar] + 1
    decreases |s|
  {
    if |s| > 0 {
      var t := s[..|s| - 1];
      var c := s[|s| - 1];
      SplitCount(t);
      assert s == t + [c];
      SplitSnoc(t, c);
    }
  }

  /** `parts.join("|")`. */
  function Join(parts: seq<string>): (s: string)
    ensures |parts| > 0 ==> parts[0] <= s
    ensures |parts| > 0 && (forall k :: 0 <= k < |parts| ==> Bar !in parts[k]) ==>
      multiset(s)[Bar] == |parts| - 1
    decreases |parts|
  {
    if |parts| == 0 then ""
    else if |parts| == 1 then parts[0]
    else
      var init := parts[..|parts| - 1];
      assert forall k :: 0 <= k < |init| ==> init[k] == parts[k];
      Join(init) + [Bar] + parts[|parts| - 1]
  }

  /** One unfolding of `Split` at a string that ends in `c`. */
  lemma SplitSnoc(t: string, c: char)
    ensures Split(t + [c]) == if c == Bar then Split(t) + [""] else ExtendLast(Split(t), [c])
  {
    var s := t + [c];
    assert s[..|s| - 1] == t;
    assert s[|s| - 1] == c;
  }

  /** One unfolding of `Join` at a list of at least two pieces. */
  lemma JoinSnoc(init: seq<string>, x: string)
    requires |init| > 0
    ensures Join(init + [x]) == Join(init) + [Bar] + x
  {
    var parts := init + [x];
    assert parts[..|parts| - 1] == init;
  }

  /** Extending the last piece extends the joined string. */
  lemma JoinExtendLast(p: seq<string>, c: char)
    requires |p| > 0
    ensures Join(ExtendLast(p, [c])) == Join(p) + [c]
  {
    var n := |p|;
    var init := p[..n - 1];
    var last := p[n - 1];
    var q := ExtendLast(p, [c]);
    assert q == init + [last + [c]];
    if n == 1 {
      assert |q| == 1 && q[0] == last + [c];
    } else {
      FrontLast(p);
      JoinSnoc(init, last);
      JoinSnoc(init, last + [c]);
      ConcatAssociative(Join(init) + [Bar], last, [c]);
    }
  }

  /** Joining the pieces gives back the filter string. */
  lemma {:induction false} JoinSplit(s: string)
    ensures Join(Split(s)) == s
    decreases |s|
  {
    if |s| > 0 {
      JoinSplit(s[..|s| - 1]);
      JoinSplitStep(s);
    }
  }

  lemma JoinSplitStep(s: string)
    requires |s| > 0 && Join(Split(s[..|s| - 1])) == s[..|s| - 1]
    ensures Join(Split(s)) == s
  {
    var t := s[..|s| - 1];
    var c := s[|s| - 1];
    FrontLast(s);
    if c == Bar {
      assert Split(s) == Split(t) + [""];
      JoinSplitBar(t);
    } else {
      assert Split(s) == ExtendLast(Split(t), [c]);
      JoinSplitPlain(t, c);
    }
  }

  lemma JoinSplitBar(t: string)
    requires Join(Split(t)) == t
    ensures Join(Split(t) + [""]) == t + [Bar]
  {
    JoinSnoc(Split(t), "");
    assert t + [Bar] + "" == t + [Bar];
  }

  lemma JoinSplitPlain(t: string, c: char)
    requires Join(Split(t)) == t
    ensures Join(ExtendLast(Split(t), [c])) == t + [c]
  {
    JoinExtendLast(Split(t), c);
  }

  /** Two extensions of the last piece make one. */
  lemma ExtendLastTwice(p: seq<string>, v: string, c: char)
    requires |p| > 0
    ensures ExtendLast(ExtendLast(p, v), [c]) == ExtendLast(p, v + [c])
  {
    var q := ExtendLast(p, v);
    assert q[..|q| - 1] == p[..|p| - 1];
    assert q[|q| - 1] + [c] == p[|p| - 1] + (v + [c]);
  }

  /** Appending text without a delimiter only extends the last piece. */
  lemma {:induction false} SplitAppendPlain(t: string, w: string)
    requires Bar !in w
    ensures Split(t + w) == ExtendLast(Split(t), w)
    decreases |w|
  {
    var p := Split(t);
    if |w| == 0 {
      assert t + w == t;
      assert p[|p| - 1] + w == p[|p| - 1];
      assert p == p[..|p| - 1] + [p[|p| - 1]];
    } else {
      var v := w[..|w| - 1];
      var c := w[|w| - 1];
      assert w == v + [c];
      SplitAppendPlain(t, v);
      SplitSnoc(t + v, c);
      ExtendLastTwice(p, v, c);
      assert t + w == (t + v) + [c];
    }
  }

  /** Extending an empty last piece replaces it. */
  lemma ExtendEmptyLast(init: seq<string>, w: string)
    ensures ExtendLast(init + [""], w) == init + [w]
  {
    var p := init + [""];
    assert p[..|p| - 1] == init;
    assert p[|p| - 1] + w == w;
  }

  /** Splitting a join of delimiter-free pieces gives back the pieces. Together with JoinSplit:
      `Split` and `Join` are inverse bijections between strings and non-empty lists of
      delimiter-free pieces. */
  lemma {:induction false} SplitJoin(parts: seq<string>)
    requires |parts| > 0
    requires forall k :: 0 <= k < |parts| ==> Bar !in parts[k]
    ensures Split(Join(parts)) == parts
    decreases |parts|
  {
    var n := |parts|;
    if n == 1 {
      SplitAppendPlain("", parts[0]);
      ExtendEmptyLast([], parts[0]);
      assert "" + parts[0] == parts[0];
    } else {
      var init := parts[..n - 1];
      var last := parts[n - 1];
      FrontLast(parts);
      SplitJoin(init);
      JoinSnoc(init, last);
      SplitSnoc(Join(init), Bar);
      var j := Join(init) + [Bar];
      SplitAppendPlain(j, last);
      ExtendEmptyLast(init, last);
    }
  }

  /** Rust's `split` keeps empty pieces: the empty filter is one empty pattern, and a
      trailing delimiter adds an empty last pattern. */
  lemma SplitKeepsEmptyPieces()
    ensures Split("") == [""]
    ensures Split("Aria|") == ["Aria", ""]
  {
    var parts := ["Aria", ""];
    assert Bar !in parts[0];
    assert Bar !in parts[1];
    SplitJoin(parts);
    JoinSnoc(["Aria"], "");
    assert ["Aria"] + [""] == parts;
    assert "Aria" + [Bar] + "" == "Aria|";
  }
}
