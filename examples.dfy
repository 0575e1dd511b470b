/** The scenario of the usage script examples.py, with the output its comments report: the
    annotation `Union[Callable[[], int], int]` and the resolver answers (examples.py:3-13).
    Then the tokens of five small annotations, one of them with qualified names and four with
    string literals.

    Evaluating the substitution on a long string literal is costly for the solver, so the
    annotation is written as the join of short pieces, each ending in a character that is
    neither a word character nor `.`; `Rewriter.SubstituteConcat` then rewrites piece by
    piece. */
module Examples {
  import opened Wrappers
  import opened Scanner
  import opened ScannerLemmas
  import opened Rewriter
  import opened Validator

  /** The entity info examples.py:13 reports: `int` comes from `builtins`, `Union` and
      `Callable` from `typing`. */
  function ExampleInfo(name: string): Option<string> {
    if name == "int" then Some("builtins")
    else if name == "Union" || name == "Callable" then Some("typing")
    else None
  }

  /** The pieces join to the annotation of examples.py:3. */
  lemma UnionAnnotationPieces()
    ensures "Union[" + "Callable[" + "[], " + "int]" + ", " + "int]" == "Union[Callable[[], int], int]"
  {
  }

  lemma IntInUnion()
    ensures Substitute("Union[", "int", "builtins.int") == "Union["
  {
  }

  /** The `int` inside `PrintHandler` follows a word character, so it is no site. */
  lemma IntInsideWordKept()
    ensures Substitute("PrintHandler[", "int", "builtins.int") == "PrintHandler["
  {
    var t := "PrintHandler[";
    forall k | 0 <= k < |t|
      ensures !SiteAt(t, k, "int")
    {
      if k == 2 {
        assert !FreeBefore(t, 2) by { assert IsWordChar(t[1]); }
      }
    }
    SubstituteWithoutSite(t, "int", "builtins.int");
  }

  /** The `int` of `x.int` follows a `.`, so it is no site. */
  lemma IntAfterDotKept()
    ensures Substitute("x.int", "int", "builtins.int") == "x.int"
  {
  }

  lemma IntBeforeBracket()
    ensures Substitute("int]", "int", "builtins.int") == "builtins.int]"
  {
    SubstituteLeadingName("int", "builtins.int", "]");
    assert "int" + "]" == "int]";
  }

  lemma CallableBeforeBracket()
    ensures Substitute("Callable[", "Callable", "typing.Callable") == "typing.Callable["
  {
    SubstituteLeadingName("Callable", "typing.Callable", "[");
    assert "Callable" + "[" == "Callable[";
  }

  lemma UnionBeforeBracket()
    ensures Substitute("Union[", "Union", "typing.Union") == "typing.Union["
  {
    SubstituteLeadingName("Union", "typing.Union", "[");
    assert "Union" + "[" == "Union[";
  }

  /** The rewrite of `int`: both bare occurrences are qualified, the `i` inside `Union` is not. */
  lemma IntRewrite()
    ensures Substitute("Union[" + "Callable[" + "[], " + "int]" + ", " + "int]", "int", "builtins.int")
         == "Union[" + "Callable[" + "[], " + "builtins.int]" + ", " + "builtins.int]"
  {
    var n, r := "int", "builtins.int";
    IntInUnion();
    IntBeforeBracket();
    SubstituteWithoutInitial("Callable[", n, r);
    SubstituteWithoutInitial("[], ", n, r);
    SubstituteWithoutInitial(", ", n, r);
    SubstituteConcat("Union[", "Callable[", n, r);
    SubstituteConcat("Union[" + "Callable[", "[], ", n, r);
    SubstituteConcat("Union[" + "Callable[" + "[], ", "int]", n, r);
    SubstituteConcat("Union[" + "Callable[" + "[], " + "int]", ", ", n, r);
    SubstituteConcat("Union[" + "Callable[" + "[], " + "int]" + ", ", "int]", n, r);
  }

  lemma CallableRewrite()
    ensures Substitute("Union[" + "Callable[" + "[], " + "builtins.int]" + ", " + "builtins.int]",
                       "Callable", "typing.Callable")
         == "Union[" + "typing.Callable[" + "[], " + "builtins.int]" + ", " + "builtins.int]"
  {
    var n, r := "Callable", "typing.Callable";
    CallableBeforeBracket();
    SubstituteWithoutInitial("Union[", n, r);
    SubstituteWithoutInitial("[], ", n, r);
    SubstituteWithoutInitial("builtins.int]", n, r);
    SubstituteWithoutInitial(", ", n, r);
    SubstituteConcat("Union[", "Callable[", n, r);
    SubstituteConcat("Union[" + "Callable[", "[], ", n, r);
    SubstituteConcat("Union[" + "Callable[" + "[], ", "builtins.int]", n, r);
    SubstituteConcat("Union[" + "Callable[" + "[], " + "builtins.int]", ", ", n, r);
    SubstituteConcat("Union[" + "Callable[" + "[], " + "builtins.int]" + ", ", "builtins.int]", n, r);
  }

  /** The rewrite of `Union`: its one occurrence, at the start, is qualified. */
  lemma UnionRewrite()
    ensures Substitute("Union[" + "typing.Callable[" + "[], " + "builtins.int]" + ", " + "builtins.int]",
                       "Union", "typing.Union")
         == "typing.Union[" + "typing.Callable[" + "[], " + "builtins.int]" + ", " + "builtins.int]"
  {
    var n, r := "Union", "typing.Union";
    UnionBeforeBracket();
    SubstituteWithoutInitial("typing.Callable[", n, r);
    SubstituteWithoutInitial("[], ", n, r);
    SubstituteWithoutInitial("builtins.int]", n, r);
    SubstituteWithoutInitial(", ", n, r);
    SubstituteConcat("Union[", "typing.Callable[", n, r);
    SubstituteConcat("Union[" + "typing.Callable[", "[], ", n, r);
    SubstituteConcat("Union[" + "typing.Callable[" + "[], ", "builtins.int]", n, r);
    SubstituteConcat("Union[" + "typing.Callable[" + "[], " + "builtins.int]", ", ", n, r);
    SubstituteConcat("Union[" + "typing.Callable[" + "[], " + "builtins.int]" + ", ", "builtins.int]", n, r);
  }

  lemma RewrittenAfterInt()
    ensures Rewritten("Union[" + "Callable[" + "[], " + "int]" + ", " + "int]", ["int"], ExampleInfo)
         == "Union[" + "Callable[" + "[], " + "builtins.int]" + ", " + "builtins.int]"
  {
    assert Qualified("builtins", "int") == "builtins.int";
    assert ["int"][..0] == [];
    IntRewrite();
  }

  lemma RewrittenAfterCallable()
    ensures Rewritten("Union[" + "Callable[" + "[], " + "int]" + ", " + "int]", ["int", "Callable"], ExampleInfo)
         == "Union[" + "typing.Callable[" + "[], " + "builtins.int]" + ", " + "builtins.int]"
  {
    assert Qualified("typing", "Callable") == "typing.Callable";
    assert ["int", "Callable"][..1] == ["int"];
    RewrittenAfterInt();
    CallableRewrite();
  }

  /** `validated_type` of examples.py:11, resolving the names in the order of the reported
      `type_map` (examples.py:13): `typing.Union[typing.Callable[[], builtins.int], builtins.int]`. */
  lemma UnionRewritten()
    ensures Rewritten("Union[" + "Callable[" + "[], " + "int]" + ", " + "int]",
                      ["int", "Callable", "Union"], ExampleInfo)
         == "typing.Union[" + "typing.Callable[" + "[], " + "builtins.int]" + ", " + "builtins.int]"
  {
    assert Qualified("typing", "Union") == "typing.Union";
    assert ["int", "Callable", "Union"][..2] == ["int", "Callable"];
    RewrittenAfterCallable();
    UnionRewrite();
  }

  /** The `type_map` of examples.py:13. */
  lemma UnionTypeMap()
    ensures TypeMap(["int", "Callable", "Union"], ExampleInfo)
         == map["int" := "builtins", "Callable" := "typing", "Union" := "typing"]
  {
    assert ["int", "Callable", "Union"][..2] == ["int", "Callable"];
    assert ["int", "Callable"][..1] == ["int"];
    assert ["int"][..0] == [];
  }

  /** Unlike the tokenizer, the substitution rewrites a name that a `.` follows. */
  lemma AttributeAccessRewritten()
    ensures Substitute("int.real", "int", "builtins.int") == "builtins.int.real"
  {
    SubstituteLeadingName("int", "builtins.int", ".real");
    assert "int" + ".real" == "int.real";
  }

  /** An annotation that writes its names qualified. */
  const QualifiedUnion: string := "typing.Union[int, str]"

  /** The one `U` of `typing.Union[int, str]` follows a `.`, so `Union` never stands bare. */
  lemma UnionNeverBare(i: nat)
    ensures !BareTokenAt(QualifiedUnion, i, "Union")
  {
  }

  /** `typing` only occurs at 0, where a `.` follows it, so it never stands bare. */
  lemma TypingNeverBare(i: nat)
    ensures !BareTokenAt(QualifiedUnion, i, "typing")
  {
  }

  lemma QualifiedUnionQuoteFree()
    ensures QuoteFree(QualifiedUnion)
  {
  }

  /** `Union` in `typing.Union[int, str]` is not a token: a `.` comes before it. */
  lemma UnionAfterDotSkipped()
    ensures "Union" !in FindAll(QualifiedUnion)
  {
    QualifiedUnionQuoteFree();
    QuoteFreeTokens(QualifiedUnion, "Union");
    forall i: nat ensures !BareTokenAt(QualifiedUnion, i, "Union") {
      UnionNeverBare(i);
    }
  }

  /** `typing` in `typing.Union[int, str]` is not a token: a `.` comes after it. */
  lemma TypingBeforeDotSkipped()
    ensures "typing" !in FindAll(QualifiedUnion)
  {
    QualifiedUnionQuoteFree();
    QuoteFreeTokens(QualifiedUnion, "typing");
    forall i: nat ensures !BareTokenAt(QualifiedUnion, i, "typing") {
      TypingNeverBare(i);
    }
  }

  /** `int` in `typing.Union[int, str]` is a token. */
  lemma IntArgumentFound()
    ensures "int" in FindAll(QualifiedUnion)
  {
    QualifiedUnionQuoteFree();
    assert QualifiedUnion[13..16] == "int";
    QuoteFreeFindsOccurrence(QualifiedUnion, 13, "int");
  }

  /** `str` in `typing.Union[int, str]` is a token. */
  lemma StrArgumentFound()
    ensures "str" in FindAll(QualifiedUnion)
  {
    QualifiedUnionQuoteFree();
    assert QualifiedUnion[18..21] == "str";
    QuoteFreeFindsOccurrence(QualifiedUnion, 18, "str");
  }

  /** `int` before a string literal is a token. */
  lemma TokenBeforeLiteral()
    ensures "int" in FindAll("Annotated[int, \"meta\"]")
  {
    var s := "Annotated[int, \"meta\"]";
    assert s[10..13] == "int";
    assert BareTokenAt(s, 10, "int");
    PassedTokenFound(s, 0, 10, "int");
  }

  /** An annotation with a string literal inside the brackets. */
  const LiteralUnion: string := "Literal[\"a\"] | int"

  /** The search passes through `Literal[` and then through the literal `"a"`. */
  lemma LiteralPassed()
    ensures PassesThrough(LiteralUnion, 0, 11)
  {
    QuoteFreeStretch(LiteralUnion, 0, 8);
    assert LiteralUnion[9..10] == "a";
    QuotedLiteralPasses(LiteralUnion, 8, 8, 11);
    PassesTrans(LiteralUnion, 0, 8, 11);
  }

  /** The `int` after the literal stands bare, and opens no literal. */
  lemma IntBareAfterLiteral()
    ensures BareTokenAt(LiteralUnion, 15, "int") && LiteralAt(LiteralUnion, PrefixEnd(LiteralUnion, 15)) == None
  {
    assert LiteralUnion[15..18] == "int";
  }

  /** `int` after a string literal is a token: the search passes through the literal. */
  lemma TokenAfterLiteral()
    ensures "int" in FindAll(LiteralUnion)
  {
    LiteralPassed();
    IntBareAfterLiteral();
    PassedTokenFound(LiteralUnion, 11, 15, "int");
  }

  /** An annotation whose only `int` is inside a string literal. */
  const LiteralInt: string := "Literal[\"int\"]"

  lemma LiteralNameMatched()
    ensures Matches(LiteralInt, 0) == [Match(0, 7, "Literal")] + Matches(LiteralInt, 7)
  {
    assert PrefixEnd(LiteralInt, 0) == 0;
    WordEndIsRun(LiteralInt, 0, 7);
    assert LiteralInt[0..7] == "Literal";
    IdentMatchAt(LiteralInt, 0);
    MatchFound(LiteralInt, 0, Match(0, 7, "Literal"));
  }

  lemma OpenBracketSkipped()
    ensures Matches(LiteralInt, 7) == Matches(LiteralInt, 8)
  {
    assert PrefixEnd(LiteralInt, 7) == 7;
    IdentMatchAt(LiteralInt, 7);
    NoMatchAt(LiteralInt, 7);
  }

  lemma CloseBracketSkipped()
    ensures Matches(LiteralInt, 13) == []
  {
    assert PrefixEnd(LiteralInt, 13) == 13;
    IdentMatchAt(LiteralInt, 13);
    NoMatchAt(LiteralInt, 13);
  }

  lemma IntLiteralMatched()
    ensures Matches(LiteralInt, 8) == [Match(8, 13, "")] + Matches(LiteralInt, 13)
  {
    assert LiteralInt[9..12] == "int";
    assert QuotedBody("int", '"') by {
      assert QuotedBody("int"[3..], '"');
      assert QuotedBody("int"[2..], '"');
      assert QuotedBody("int"[1..], '"');
    }
    QuotedLiteralHidden(LiteralInt, 8, 8, 13);
  }

  /** The search over `Literal["int"]` finds `Literal`, then the literal as a whole. */
  lemma LiteralIntMatches()
    ensures Matches(LiteralInt, 0) == [Match(0, 7, "Literal"), Match(8, 13, "")]
  {
    LiteralNameMatched();
    OpenBracketSkipped();
    IntLiteralMatched();
    CloseBracketSkipped();
  }

  /** The tokens of `Literal["int"]` are `Literal` and the empty capture of the literal: the
      `int` inside the quotes is no token. */
  lemma LiteralHidesName()
    ensures FindAll(LiteralInt) == ["Literal", ""]
    ensures "int" !in FindAll(LiteralInt)
  {
    LiteralIntMatches();
  }

  /** An annotation whose `int` is inside a raw triple-quoted literal: `r'''int''' str`. */
  const TripleInt: string := "r'''int''' str"

  /** `int` is a body for a triple-quoted literal in single quotes. */
  lemma IntTripleBody()
    ensures TripleBody("int", '\'')
  {
    var x := "int" + ['\'', '\'', '\''];
    assert x == "int'''";
  }

  lemma TripleLiteralMatched()
    ensures Matches(TripleInt, 0) == [Match(0, 10, "")] + Matches(TripleInt, 10)
  {
    assert TripleInt[4..10] == "int" + ['\'', '\'', '\''];
    IntTripleBody();
    TripleLiteralHidden(TripleInt, 0, 1, '\'', "int");
  }

  lemma SpaceSkipped()
    ensures Matches(TripleInt, 10) == Matches(TripleInt, 11)
  {
    assert PrefixEnd(TripleInt, 10) == 10;
    IdentMatchAt(TripleInt, 10);
    NoMatchAt(TripleInt, 10);
  }

  lemma StrAfterTripleMatched()
    ensures Matches(TripleInt, 11) == [Match(11, 14, "str")]
  {
    assert PrefixEnd(TripleInt, 11) == 11;
    assert WordEnd(TripleInt, 11) == 14 by {
      assert WordEnd(TripleInt, 14) == 14;
      assert WordEnd(TripleInt, 13) == 14;
      assert WordEnd(TripleInt, 12) == 14;
    }
    assert TripleInt[11..14] == "str";
    IdentMatchAt(TripleInt, 11);
    MatchFound(TripleInt, 11, Match(11, 14, "str"));
  }

  /** The tokens of `r'''int''' str` are the empty capture of the literal and `str`: the
      `int` inside the triple quotes is no token. */
  lemma TripleHidesName()
    ensures FindAll(TripleInt) == ["", "str"]
    ensures "int" !in FindAll(TripleInt)
  {
    TripleLiteralMatched();
    SpaceSkipped();
    StrAfterTripleMatched();
  }
}
