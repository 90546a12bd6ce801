/** The string keys the program gives its edges, `${from}->${to}`, and how
    the ends are read back with `split('->')`. The rest of this model keys
    the edge maps by the pair of step names itself. */
module EdgeKeys {
  import opened EdgeTracking

  /** `a` contains no `->`. */
  predicate NoArrow(a: string)
  {
    forall i :: 0 <= i < |a| - 1 ==> !(a[i] == '-' && a[i + 1] == '>')
  }

  // ---------------------------------------------------------------------------
  // As written
  // ---------------------------------------------------------------------------

  /** `${currentStep}->${nextStep}` */
  function EdgeKey(from: string, to: string): (r: string)
    ensures |r| == |from| + |to| + 2
  {
    from + "->" + to
  }

  /** JavaScript `s.split('->')`: the pieces between the non-overlapping
      occurrences of `->`, scanned from the left. */
  function SplitArrow(s: string): (r: seq<string>)
    ensures |r| >= 1
    decreases |s|
  {
    if s == [] then [""]
    else if |s| >= 2 && s[0] == '-' && s[1] == '>' then [""] + SplitArrow(s[2..])
    else
      var rest := SplitArrow(s[1..]);
      [[s[0]] + rest[0]] + rest[1..]
  }

  /** `const [fromNode, toNode] = edgeKey.split('->')`: the first two pieces;
      a missing second piece (`undefined`, which is falsy) is the empty
      string here. */
  function KeyEnds(key: string): Edge
  {
    var pieces := SplitArrow(key);
    (pieces[0], if |pieces| >= 2 then pieces[1] else "")
  }

  lemma {:induction false} SplitArrowPlain(a: string)
    requires NoArrow(a)
    ensures SplitArrow(a) == [a]
    decreases |a|
  {
    if a != [] {
      assert NoArrow(a[1..]);
      SplitArrowPlain(a[1..]);
      assert a == [a[0]] + a[1..];
    }
  }

  lemma {:induction false} SplitArrowAppend(a: string, b: string)
    requires NoArrow(a)
    ensures SplitArrow(a + "->" + b) == [a] + SplitArrow(b)
    decreases |a|
  {
    var s := a + "->" + b;
    if a == [] {
      assert s == "->" + b && s[2..] == b;
    } else {
      assert NoArrow(a[1..]);
      SplitArrowAppend(a[1..], b);
      assert s[1..] == a[1..] + "->" + b;
      assert !(s[0] == '-' && s[1] == '>');
      assert [a[0]] + a[1..] == a;
    }
  }

  /** For step names without `->`, the ends read back are the names. */
  lemma KeyEndsOfPlainNames(from: string, to: string)
    requires NoArrow(from) && NoArrow(to)
    ensures KeyEnds(EdgeKey(from, to)) == (from, to)
  {
    SplitArrowAppend(from, to);
    SplitArrowPlain(to);
  }

  /** A step name containing `->` breaks both directions: the edges
      "a->b" to "c" and "a" to "b->c" get the same key, and that key reads
      back as the edge "a" to "b". */
  lemma ArrowNamesCollide()
    ensures EdgeKey("a->b", "c") == EdgeKey("a", "b->c")
    ensures KeyEnds(EdgeKey("a->b", "c")) == ("a", "b")
    ensures KeyEnds(EdgeKey("a->b", "c")) != ("a->b", "c")
  {
    assert EdgeKey("a->b", "c") == "a" + "->" + ("b" + "->" + "c");
    SplitArrowAppend("a", "b" + "->" + "c");
    SplitArrowAppend("b", "c");
    SplitArrowPlain("c");
  }

  // ---------------------------------------------------------------------------
  // Corrected: an encoding that reads back every pair of names
  // ---------------------------------------------------------------------------

  /** Every `-` in a name is written as `-_`, so an escaped name has no `->`. */
  function Escape(s: string): (r: string)
    ensures |r| >= |s|
  {
    if s == [] then [] else (if s[0] == '-' then "-_" else [s[0]]) + Escape(s[1..])
  }

  function Unescape(s: string): string
    decreases |s|
  {
    if s == [] then []
    else if |s| >= 2 && s[0] == '-' && s[1] == '_' then "-" + Unescape(s[2..])
    else [s[0]] + Unescape(s[1..])
  }

  lemma {:induction false} UnescapeEscape(s: string)
    ensures Unescape(Escape(s)) == s
  {
    if s != [] {
      UnescapeEscape(s[1..]);
      var e := Escape(s);
      if s[0] == '-' {
        assert e == "-_" + Escape(s[1..]) && e[2..] == Escape(s[1..]);
      } else {
        assert e == [s[0]] + Escape(s[1..]) && e[1..] == Escape(s[1..]);
      }
      assert s == [s[0]] + s[1..];
    }
  }

  /** The text before and after the first `->` (everything and nothing when
      there is none). */
  function SplitFirstArrow(s: string): (string, string)
    decreases |s|
  {
    if s == [] then ("", "")
    else if |s| >= 2 && s[0] == '-' && s[1] == '>' then ("", s[2..])
    else
      var (x, y) := SplitFirstArrow(s[1..]);
      ([s[0]] + x, y)
  }

  lemma {:induction false} FirstArrowAfterEscape(a: string, rest: string)
    ensures SplitFirstArrow(Escape(a) + "->" + rest) == (Escape(a), rest)
  {
    var s := Escape(a) + "->" + rest;
    if a == [] {
      assert s == "->" + rest && s[2..] == rest;
    } else {
      FirstArrowAfterEscape(a[1..], rest);
      var tail := Escape(a[1..]) + "->" + rest;
      if a[0] == '-' {
        assert s == "-_" + tail;
        assert s[1..] == "_" + tail && s[1..][1..] == tail;
        assert SplitFirstArrow(s[1..]) == ("_" + Escape(a[1..]), rest);
        assert Escape(a) == "-" + ("_" + Escape(a[1..]));
      } else {
        assert s == [a[0]] + tail && s[1..] == tail;
      }
    }
  }

  function EncodeKey(e: Edge): string
  {
    Escape(e.0) + "->" + Escape(e.1)
  }

  function DecodeKey(key: string): Edge
  {
    var (x, y) := SplitFirstArrow(key);
    (Unescape(x), Unescape(y))
  }

  /** Every edge, whatever its names contain, reads back from its key. */
  lemma KeyRoundTrip(e: Edge)
    ensures DecodeKey(EncodeKey(e)) == e
  {
    FirstArrowAfterEscape(e.0, Escape(e.1));
    UnescapeEscape(e.0);
    UnescapeEscape(e.1);
  }

  /** So distinct edges never share a key. */
  lemma EncodeKeyInjective(e: Edge, f: Edge)
    ensures EncodeKey(e) == EncodeKey(f) <==> e == f
  {
    KeyRoundTrip(e);
    KeyRoundTrip(f);
  }
}
