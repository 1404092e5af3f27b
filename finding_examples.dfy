/** The names that show where the preview and the name generator part from the save. */
module FindingExamples {
  import opened Wrappers
  import opened Digits
  import opened Paths
  import opened Naming
  import opened Panel

  /**
    The generator's J02_Smith_John_layout_wip_01 is saved on as _Smith_John_layout_wip_02;
    the intended rule gives J02_Smith_John_layout_wip_02.
  */
  lemma GeneratorExample(letter: string, last: string, first: string, stage: string, status: string)
    requires letter == "J" && last == "Smith" && first == "John" && stage == "layout" && status == "wip"
    ensures GenerateFilename(letter, 2, last, first, stage, status, 1)
      == Some(letter + "02" + "_" + last + "_" + first + "_" + stage + "_" + status + ("_" + "01"))
    ensures NextBase(GenerateFilename(letter, 2, last, first, stage, status, 1).value)
      == "_" + last + "_" + first + "_" + (stage + "_" + status) + "_" + "02"
    ensures NextBaseKeepingFront(GenerateFilename(letter, 2, last, first, stage, status, 1).value)
      == letter + "02" + ("_" + last + "_" + first + "_" + (stage + "_" + status) + "_") + "02"
  {
    assert Lacks(letter, '_') && Lacks(last, '_') && Lacks(first, '_') && Lacks(stage, '_') && Lacks(status, '_');
    assert NoDigits(last) && NoDigits(first) && NoDigits(stage) && NoDigits(status);
    TwoDigitsOf(1, "01");
    TwoDigitsOf(2, "02");
    LowerOfLower(stage);
    IncrementOf01();
    GeneratedNameLosesAssignment(letter, 2, last, first, stage, status, 1);
    GeneratedNameKeepsFront(letter, 2, last, first, stage, status, 1);
  }

  /**
    The preview of A01_Smith_John_wip_01.ma shows _Smith_John_wip_02.ma, while Save Plus
    writes A01_Smith_John_wip_02.ma, which the intended preview shows.
  */
  lemma PreviewExample(a: AssignmentName)
    requires a == AssignmentName('A', "01", "Smith", "John", "wip", "01")
    ensures PreviewName(Compose(a) + ".ma", 0) == Some("_" + a.last + "_" + a.first + "_" + a.kind + "_" + "02" + ".ma")
    ensures PreviewNameIntended(Compose(a) + ".ma", 0) == Some(Compose(a.(version := "02")) + ".ma")
    ensures NextFileName(Compose(a) + ".ma", ".ma") == Compose(a.(version := "02")) + ".ma"
  {
    ExampleIsPlain(a);
    IncrementOf01();
    PreviewOfAssignment(a);
    SplitsOffMa(Compose(a), ".ma");
    KeepsOwnDefault(".ma", ".ma");
  }

  lemma KeepsOwnDefault(e: string, d: string)
    requires e == d
    ensures FixExtension(e, d) == e
  {
  }

  lemma ExampleIsPlain(a: AssignmentName)
    requires a == AssignmentName('A', "01", "Smith", "John", "wip", "01")
    ensures WellFormed(a) && NoDigits(a.last) && NoDigits(a.first) && NoDigits(a.kind)
    ensures Lacks(Compose(a), '/') && Compose(a)[0] == 'A'
  {
    assert Lacks(a.last, '/') && Lacks(a.first, '/') && Lacks(a.kind, '/');
    ComposeIsPlain(a);
  }

  /** An assignment name whose text fields have no '/' composes to a name without '/'. */
  lemma ComposeIsPlain(a: AssignmentName)
    requires WellFormed(a) && Lacks(a.last, '/') && Lacks(a.first, '/') && Lacks(a.kind, '/')
    ensures Lacks(Compose(a), '/') && Compose(a)[0] == a.letter
  {
    var u := "_";
    LacksAppend([a.letter], a.number, '/');
    LacksAppend([a.letter] + a.number, u, '/');
    LacksAppend([a.letter] + a.number + u, a.last, '/');
    LacksAppend([a.letter] + a.number + u + a.last, u, '/');
    LacksAppend([a.letter] + a.number + u + a.last + u, a.first, '/');
    LacksAppend([a.letter] + a.number + u + a.last + u + a.first, u, '/');
    LacksAppend([a.letter] + a.number + u + a.last + u + a.first + u, a.kind, '/');
    LacksAppend([a.letter] + a.number + u + a.last + u + a.first + u + a.kind, u, '/');
    LacksAppend([a.letter] + a.number + u + a.last + u + a.first + u + a.kind + u, a.version, '/');
  }

  lemma SplitsOffMa(x: string, e: string)
    requires Lacks(x, '/') && x != [] && x[0] != '.'
    requires e == ".ma"
    ensures SplitExt(x + e) == (x, e)
  {
    MaIsExtension(e);
    BasenameOfPlain(x);
    SplitExtAppend(x, e);
  }

  /** Solver aid: ".ma" is a well-shaped extension. */
  lemma MaIsExtension(e: string)
    requires e == ".ma"
    ensures e != [] && IsExtension(e)
  {
    assert e[1..] == "ma";
  }

  /** Solver aid: the spin-box values 1 and 2 as two digits. */
  lemma TwoDigitsOf(n: int, s: string)
    requires (n == 1 && s == "01") || (n == 2 && s == "02")
    ensures 1 <= n <= 99 && TwoDigits(n) == s
  {
    assert Decimal(n) == [DigitChar(n)];
  }

  lemma {:induction false} LowerOfLower(s: string)
    requires forall i :: 0 <= i < |s| ==> !('A' <= s[i] <= 'Z')
    ensures Lower(s) == s
  {
    if s != [] {
      LowerOfLower(s[1..]);
      assert [s[0]] + s[1..] == s;
    }
  }

  /** Solver aid: the literal increment of "01". */
  lemma IncrementOf01()
    ensures Increment("01") == "02"
  {
    assert ValueOf("01") == 1;
    assert Decimal(2) == "2";
  }
}
