/**
  The renaming examples listed in the About dialog of savePlus.py, checked against the rule.
  Each example takes the pieces of its file name as parameters fixed by its `requires`.
*/
module AboutExamples {
  import opened Digits
  import opened Paths
  import opened Naming

  /** "filename.mb -> filename02.mb" */
  lemma AboutNoNumber(stem: string, ext: string)
    requires stem == "filename" && ext == ".mb"
    ensures NextFileName(stem + ext, ".ma") == stem + "02" + ext
  {
    StemFacts(stem);
    NameSplits(stem, ext);
    NoDigitAppends02(stem);
  }

  /** "filename5.mb -> filename6.mb" */
  lemma AboutOneDigit(stem: string, d: string, ext: string)
    requires stem == "filename" && d == "5" && ext == ".mb"
    ensures NextFileName(stem + d + ext, ".ma") == stem + "6" + ext
  {
    StemFacts(stem);
    IncrementOf(d, "6");
    DigitRunBase(stem, d, ext);
  }

  /** "filename00002.mb -> filename00003.mb": the padding is kept. */
  lemma AboutPadded(stem: string, d: string, ext: string)
    requires stem == "filename" && d == "00002" && ext == ".mb"
    ensures NextFileName(stem + d + ext, ".ma") == stem + "00003" + ext
  {
    StemFacts(stem);
    IncrementOf00002(d);
    DigitRunBase(stem, d, ext);
  }

  /** "scene45_99.mb" becomes "_100.mb", not the "scene45_100.mb" the About dialog shows. */
  lemma SceneExampleAsWritten(stem: string, ver: string, ext: string)
    requires stem == "scene45" && ver == "99" && ext == ".mb"
    ensures NextBase(stem + "_" + ver) == "_" + "100"
    ensures NextFileName(stem + "_" + ver + ext, ".ma") == "_" + "100" + ext
  {
    var pre := stem + "_";
    SceneFacts(stem, ver);
    IncrementOf(ver, "100");
    LastDigitEndAt(pre, 7);
    NextBaseAsWritten(pre, ver, []);
    assert pre[7..] == "_";
    assert pre + ver + [] == pre + ver;
    NameSplits(pre + ver, ext);
  }

  /** The intended rule gives the name the About dialog shows. */
  lemma SceneExampleIntended(stem: string, ver: string)
    requires stem == "scene45" && ver == "99"
    ensures NextBaseKeepingFront(stem + "_" + ver) == stem + "_" + "100"
  {
    var pre := stem + "_";
    SceneFacts(stem, ver);
    IncrementOf(ver, "100");
    LastRunKeepsFront(pre, ver, []);
    assert pre + ver + [] == pre + ver;
    assert pre + Increment(ver) + [] == pre + "100";
  }

  // ---------------------------------------------------------------------
  // The steps of the examples.  The lemmas on literals below are solver aids:
  // each evaluates one literal fact once, so that the examples above need not
  // unfold the definitions on long strings.

  /** A plain name followed by ".mb" splits back into the two and keeps ".mb". */
  lemma NameSplits(x: string, e: string)
    requires Lacks(x, '/') && x != [] && x[0] != '.'
    requires e == ".mb"
    ensures SplitExt(x + e) == (x, e)
    ensures NextFileName(x + e, ".ma") == NextBase(x) + e
  {
    MbIsExtension(e);
    BasenameOfPlain(x);
    assert !AllDots(Basename(x));
    SplitExtAppend(x, e);
    KeepsMb(e);
  }

  lemma MbIsExtension(e: string)
    requires e == ".mb"
    ensures e != [] && IsExtension(e)
  {
    assert e[1..] == "mb";
  }

  lemma KeepsMb(e: string)
    requires e == ".mb"
    ensures FixExtension(e, ".ma") == e
  {
    LowerOfMb();
  }

  /** A base `stem + d` with a single digit run, followed by ".mb". */
  lemma DigitRunBase(stem: string, d: string, ext: string)
    requires NoDigits(stem) && Lacks(stem, '/') && stem != [] && stem[0] != '.'
    requires d != [] && AllDigits(d) && ext == ".mb"
    ensures NextFileName(stem + d + ext, ".ma") == stem + Increment(d) + ext
  {
    LacksAppend(stem, d, '/');
    NameSplits(stem + d, ext);
    SingleRunKeepsFront(stem, d, []);
    assert stem + d + [] == stem + d;
    assert stem + Increment(d) + [] == stem + Increment(d);
  }

  lemma StemFacts(stem: string)
    requires stem == "filename"
    ensures NoDigits(stem) && Lacks(stem, '/') && stem != [] && stem[0] != '.'
  {
  }

  /** "scene45_99" is not assignment-style, is plain, and ends in a digit run after '_'. */
  lemma SceneFacts(stem: string, ver: string)
    requires stem == "scene45" && ver == "99"
    ensures MatchAssignment(stem + "_" + ver).None?
    ensures Lacks(stem + "_" + ver, '/') && (stem + "_" + ver)[0] == 's'
    ensures AllDigits(ver) && ver != []
    ensures (stem + "_")[6] == '5' && (stem + "_")[7] == '_' && |stem + "_"| == 8
    ensures NonDigitsIn(stem + "_", 7, 8)
    ensures stem + "_" + ver == (stem + "_") + ver
  {
    FieldsOfJoin(stem, ver);
    FieldsOfPlain(ver);
    LacksAppend(stem + "_", ver, '/');
  }

  lemma IncrementOf(d: string, r: string)
    requires (d == "5" && r == "6") || (d == "99" && r == "100")
    ensures AllDigits(d) && d != [] && Increment(d) == r
  {
    if d == "5" {
      IncrementOf5();
    } else {
      IncrementOf99();
    }
  }

  lemma IncrementOf5()
    ensures Increment("5") == "6"
  {
  }

  lemma IncrementOf99()
    ensures Increment("99") == "100"
  {
    assert ValueOf("99") == 99;
  }

  lemma LowerOfMb()
    ensures Lower(".mb") == ".mb"
  {
  }

  lemma IncrementOf00002(d: string)
    requires d == "00002"
    ensures AllDigits(d) && d != [] && Increment(d) == "00003"
  {
    assert d == Zeros(4) + "2";
    ValueOfZerosPrefix(4, "2");
    assert Decimal(3) == "3";
    assert ZFill("3", 5) == Zeros(4) + "3";
  }
}
