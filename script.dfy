/**
  The install and uninstall scripts of a manifest: raw SQL text whose
  statements are separated by the line `-- command split --`.
 */
module Script {
  import opened Optional
  import opened PhpString

  const Delimiter := "-- command split --"

  /** `explode('-- command split --', trim($text))`. */
  function Segments(text: string): (segs: seq<string>)
    ensures |segs| >= 1
  {
    Explode(Trim(text), Delimiter)
  }

  /** The segments that survive `$sql = trim($sql); if (!empty($sql))`,
      trimmed, in their original order. */
  function Kept(segs: seq<string>): (r: seq<string>)
    ensures |r| <= |segs|
  {
    if segs == [] then []
    else
      var sql := Trim(segs[|segs| - 1]);
      var init := Kept(segs[..|segs| - 1]);
      if PhpEmpty(sql) then init else init + [sql]
  }

  /** Segment `k` of `segs`, trimmed, is the non-empty statement `v`. */
  predicate SegmentGives(segs: seq<string>, k: int, v: string) {
    0 <= k < |segs| && v == Trim(segs[k]) && !PhpEmpty(v)
  }

  /** Every kept statement is the trimmed form of some segment. */
  lemma {:induction false} KeptSound(segs: seq<string>, v: string)
    requires v in Kept(segs)
    ensures exists k :: SegmentGives(segs, k, v)
  {
    var init := segs[..|segs| - 1];
    var sql := Trim(segs[|segs| - 1]);
    assert Kept(segs) == if PhpEmpty(sql) then Kept(init) else Kept(init) + [sql];
    if v in Kept(init) {
      KeptSound(init, v);
      var k :| SegmentGives(init, k, v);
      assert init[k] == segs[k];
      assert SegmentGives(segs, k, v);
    } else {
      assert SegmentGives(segs, |segs| - 1, v);
    }
  }

  /** Every segment whose trimmed form is not PHP-empty is kept. */
  lemma {:induction false} KeptComplete(segs: seq<string>, k: int, v: string)
    requires SegmentGives(segs, k, v)
    ensures v in Kept(segs)
  {
    var init := segs[..|segs| - 1];
    if k == |segs| - 1 {
      assert Kept(segs) == Kept(init) + [v];
    } else {
      assert init[k] == segs[k];
      KeptComplete(init, k, v);
      assert Kept(segs) == Kept(init) + Kept(segs)[|Kept(init)|..];
    }
  }

  /** The positions of the segments whose trimmed form is not PHP-empty. */
  function KeptPositions(segs: seq<string>): (ix: seq<nat>)
    ensures forall k :: 0 <= k < |ix| ==> ix[k] < |segs|
  {
    if segs == [] then []
    else
      var init := KeptPositions(segs[..|segs| - 1]);
      if PhpEmpty(Trim(segs[|segs| - 1])) then init else init + [|segs| - 1]
  }

  /** The statements follow the segments: statement k is the trimmed segment
      at position ix[k], which is not PHP-empty, the positions increase, and
      every segment that is not PHP-empty once trimmed has one. */
  lemma KeptInOrder(segs: seq<string>)
    ensures |Kept(segs)| == |KeptPositions(segs)|
    ensures forall k :: 0 <= k < |KeptPositions(segs)| ==>
      !PhpEmpty(Trim(segs[KeptPositions(segs)[k]])) && Kept(segs)[k] == Trim(segs[KeptPositions(segs)[k]])
    ensures forall k, l :: 0 <= k < l < |KeptPositions(segs)| ==>
      KeptPositions(segs)[k] < KeptPositions(segs)[l]
    ensures forall i :: 0 <= i < |segs| && !PhpEmpty(Trim(segs[i])) ==> i in KeptPositions(segs)
  {
    KeptAtPositions(segs);
    KeptPositionsOrdered(segs);
  }

  lemma {:induction false} KeptAtPositions(segs: seq<string>)
    ensures var r, ix := Kept(segs), KeptPositions(segs);
      && |r| == |ix|
      && forall k :: 0 <= k < |ix| ==> !PhpEmpty(Trim(segs[ix[k]])) && r[k] == Trim(segs[ix[k]])
  {
    if segs != [] {
      var init := segs[..|segs| - 1];
      KeptAtPositions(init);
      var r0, ix0 := Kept(init), KeptPositions(init);
      var r, ix := Kept(segs), KeptPositions(segs);
      forall k | 0 <= k < |ix0|
        ensures ix[k] == ix0[k] && r[k] == r0[k] && segs[ix[k]] == init[ix0[k]]
      {
        assert init[ix0[k]] == segs[ix0[k]];
      }
    }
  }

  lemma {:induction false} KeptPositionsOrdered(segs: seq<string>)
    ensures forall k, l :: 0 <= k < l < |KeptPositions(segs)| ==>
      KeptPositions(segs)[k] < KeptPositions(segs)[l]
    ensures forall i :: 0 <= i < |segs| && !PhpEmpty(Trim(segs[i])) ==> i in KeptPositions(segs)
  {
    if segs != [] {
      var init := segs[..|segs| - 1];
      KeptPositionsOrdered(init);
      var ix0 := KeptPositions(init);
      var ix := KeptPositions(segs);
      assert forall k :: 0 <= k < |ix0| ==> ix[k] == ix0[k] && ix0[k] < |init|;
      assert ix == ix0 || ix == ix0 + [|init|];
      forall k, l | 0 <= k < l < |ix| ensures ix[k] < ix[l] {
        assert ix[k] == ix0[k] && ix0[k] < |init|;
        if l < |ix0| {
          assert ix[l] == ix0[l] && ix0[k] < ix0[l];
        } else {
          assert ix[l] == |init|;
        }
      }
      forall i | 0 <= i < |segs| && !PhpEmpty(Trim(segs[i])) ensures i in ix {
        if i < |init| {
          assert init[i] == segs[i];
          assert i in ix0;
          var k :| 0 <= k < |ix0| && ix0[k] == i;
          assert ix[k] == i;
        } else {
          assert ix[|ix| - 1] == i;
        }
      }
    }
  }

  /** The statements a script of text `text` sends to the database, in order. */
  function Statements(text: string): seq<string> {
    Kept(Segments(text))
  }

  /** What `install`/`uninstall` run for the manifest's script element: nothing
      when it is absent or empty, its statements otherwise. */
  function ScriptStatements(script: Option<string>): seq<string> {
    if script.Some? && script.value != "" then Statements(script.value) else []
  }

  /** Every statement run is trimmed, is not a PHP-empty string, and holds no
      delimiter. */
  lemma StatementsClean(text: string)
    ensures forall k :: 0 <= k < |Statements(text)| ==>
      IsTrimmed(Statements(text)[k]) && !PhpEmpty(Statements(text)[k])
      && !Contains(Statements(text)[k], Delimiter)
  {
    var segs := Segments(text);
    var r := Statements(text);
    ExplodePiecesFree(Trim(text), Delimiter);
    forall k | 0 <= k < |r|
      ensures IsTrimmed(r[k]) && !PhpEmpty(r[k]) && !Contains(r[k], Delimiter)
    {
      assert r[k] in r;
      KeptSound(segs, r[k]);
      var j :| SegmentGives(segs, j, r[k]);
      TrimFree(segs[j], Delimiter);
    }
  }

  /** The segments are the trimmed text cut at every delimiter: joined back
      with the delimiter they give the trimmed text, and none holds one. */
  lemma SegmentsRoundTrip(text: string)
    ensures Join(Segments(text), Delimiter) == Trim(text)
    ensures forall k :: 0 <= k < |Segments(text)| ==> !Contains(Segments(text)[k], Delimiter)
  {
    ExplodeJoin(Trim(text), Delimiter);
    ExplodePiecesFree(Trim(text), Delimiter);
  }

  lemma {:induction false} BlankTrimsAway(text: string)
    requires forall i :: 0 <= i < |text| ==> text[i] in Whitespace
    ensures TrimLeft(text) == []
  {
    if text != [] {
      BlankTrimsAway(text[1..]);
    }
  }

  /** A script made of whitespace only runs nothing. */
  lemma BlankScriptRunsNothing(text: string)
    requires forall i :: 0 <= i < |text| ==> text[i] in Whitespace
    ensures Statements(text) == []
  {
    BlankTrimsAway(text);
    assert Trim(text) == [];
    assert Segments(text) == [""];
  }

  /** The guard `!empty($module['install'])` changes nothing: the text it
      skips would run no statement anyway. */
  lemma GuardRedundant(text: string)
    ensures ScriptStatements(Some(text)) == Statements(text)
  {
    if text == "" {
      BlankScriptRunsNothing(text);
    }
  }

  // The worked example `TwoStatementScript` below is proved in small steps.
  // Its string literals are passed as parameters, fixed by `requires`, so
  // that the verifier does not unfold the literals in every step.

  lemma SampleSegments(a: string, b: string)
    requires a == "A;\n" && b == "\n  B;  \n"
    ensures Explode(a + Delimiter + b + Delimiter, Delimiter) == [a, b, ""]
  {
    var d := Delimiter;
    var rest := b + d + "";
    assert a + d + b + d == a + d + rest;
    NoMatchByFirstChar(a + d + rest, d, |a|);
    ExplodeAtFirst(a, rest, d);
    NoMatchByFirstChar(rest, d, |b|);
    ExplodeAtFirst(b, "", d);
    ExplodeShort("", d);
  }

  lemma SampleTrim(a: string, b: string)
    requires a == "A;\n" && b == "\n  B;  \n"
    ensures Trim(a + Delimiter + b + Delimiter + "\n") == a + Delimiter + b + Delimiter
  {
    var core := a + Delimiter + b + Delimiter;
    assert a + Delimiter + b + Delimiter + "\n" == "" + core + "\n";
    assert core[0] == 'A' && core[|core| - 1] == '-';
    TrimPadded("", core, "\n");
  }

  lemma SampleFirst(a: string)
    requires a == "A;\n"
    ensures Trim(a) == "A;"
  {
    assert a == "" + "A;" + "\n";
    TrimPadded("", "A;", "\n");
  }

  lemma SampleSecond(b: string)
    requires b == "\n  B;  \n"
    ensures Trim(b) == "B;"
  {
    var pre, post := "\n  ", "  \n";
    assert b == pre + "B;" + post;
    assert pre[0] == '\n' && pre[1] == ' ' && pre[2] == ' ';
    assert post[0] == ' ' && post[1] == ' ' && post[2] == '\n';
    TrimPadded(pre, "B;", post);
  }

  /** Appending one segment appends at most its trimmed statement. */
  lemma KeptSnoc(segs: seq<string>, x: string)
    ensures Kept(segs + [x]) == if PhpEmpty(Trim(x)) then Kept(segs) else Kept(segs) + [Trim(x)]
  {
    assert (segs + [x])[..|segs|] == segs;
  }

  /** The segments of the worked example below. */
  lemma SampleSegmentsOfText(text: string, a: string, b: string)
    requires a == "A;\n" && b == "\n  B;  \n" && text == a + Delimiter + b + Delimiter + "\n"
    ensures Segments(text) == [a, b, ""]
  {
    SampleTrim(a, b);
    SampleSegments(a, b);
  }

  lemma KeptOne(a: string, x: string)
    requires Trim(a) == x && !PhpEmpty(x)
    ensures Kept([a]) == [x]
  {
    assert [a][..0] == [];
  }

  lemma KeptTwo(a: string, b: string, x: string, y: string)
    requires Kept([a]) == [x] && Trim(b) == y && !PhpEmpty(y)
    ensures Kept([a, b]) == [x, y]
  {
    assert [a, b][..1] == [a];
  }

  lemma KeptThree(a: string, b: string, x: string, y: string)
    requires Kept([a, b]) == [x, y]
    ensures Kept([a, b, ""]) == [x, y]
  {
    assert [a, b, ""][..2] == [a, b];
    assert Trim("") == [];
  }

  /** A worked example: two statements, a trailing delimiter, surrounding
      whitespace. */
  lemma TwoStatementScript(text: string, a: string, b: string)
    requires a == "A;\n" && b == "\n  B;  \n" && text == a + Delimiter + b + Delimiter + "\n"
    ensures Statements(text) == ["A;", "B;"]
  {
    SampleSegmentsOfText(text, a, b);
    SampleFirst(a);
    SampleSecond(b);
    KeptOne(a, "A;");
    KeptTwo(a, b, "A;", "B;");
    KeptThree(a, b, "A;", "B;");
  }
}
