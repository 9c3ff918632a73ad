/**
  The handling of the language model's reply (app.py, extract_main_content
  and extract_diagram_code): the reply is plain text in which the model is
  asked to put its Python code in a block opened by "```python" and closed
  by "```". Only the first opening marker and the first fence after it are
  honoured.
 */
module Reply {
  import opened Wrappers
  import opened PyText

  /** The opening marker of the code block. */
  const PythonFence: string := "```python"

  /** The closing fence. */
  const Fence: string := "```"

  /**
    What extract_diagram_code finds. The source returns None for both of
    the first two cases and tells them apart only by the notice it writes
    to the page; here they are distinct results.
   */
  datatype CodeResult =
    | NoDiagramPart          // no "```python" in the reply
    | NoClosingFence         // "```python" but no "```" after it
    | Code(code: string)     // the stripped text between the two

  /** The Python-level value: `None` for both failures, the code otherwise. */
  function AsPython(r: CodeResult): (o: Option<string>)
    ensures o == None <==> !r.Code?
    ensures r.Code? ==> o == Some(r.code)
  {
    match r
    case Code(c) => Some(c)
    case _ => None
  }

  /** The notice the page shows for each failure (none on success). */
  function Notice(r: CodeResult): (n: Option<string>)
    ensures n == None <==> r.Code?
  {
    match r
    case NoDiagramPart => Some("There is no DIAGRAM part")
    case NoClosingFence => Some("There is no Python code in DIAGRAM part.")
    case Code(_) => None
  }

  /**
    extract_main_content: the prose before the first "```python", stripped,
    or None when that prose is blank; the whole reply, unstripped, when the
    marker does not occur.
   */
  function ExtractMainContent(text: string): Option<string>
  {
    var codeStart := Find(text, PythonFence, 0);
    if codeStart != -1 then
      var mainContent := Strip(text[0..codeStart]);
      if |mainContent| == 0 then None else Some(mainContent)
    else
      Some(text)
  }

  /**
    No "```" can match inside the opening marker itself: every position
    from one past the marker's start to its end holds a character of
    "python" within the first three, so the search for the closing fence,
    which starts one past the marker, never stops before the marker ends.
   */
  lemma {:induction false} FenceNotInsideMarker(text: string, codeStart: int)
    requires MatchAt(text, PythonFence, codeStart)
    ensures forall k :: codeStart < k < codeStart + |PythonFence| ==> !MatchAt(text, Fence, k)
  {
    forall k | codeStart < k < codeStart + |PythonFence|
      ensures !MatchAt(text, Fence, k)
    {
      var j := if k <= codeStart + 3 then codeStart + 3 else k;
      assert text[j] == PythonFence[j - codeStart] by {
        assert text[codeStart..codeStart + |PythonFence|][j - codeStart] == text[j];
      }
      assert PythonFence[j - codeStart] != '`';
      if k + |Fence| <= |text| {
        assert text[k..k + |Fence|][j - k] == text[j];
      }
    }
  }

  /**
    The slice of extract_diagram_code is well formed: whenever the closing
    search succeeds, it stops at or after the end of the opening marker.
   */
  lemma ClosingFenceAfterMarker(text: string, codeStart: int)
    requires MatchAt(text, PythonFence, codeStart)
    ensures var codeEnd := Find(text, Fence, codeStart + 1);
      codeEnd != -1 ==> codeStart + |PythonFence| <= codeEnd
  {
    FenceNotInsideMarker(text, codeStart);
  }

  /**
    extract_diagram_code: the stripped text between the first "```python"
    and the first "```" found from one character past that marker's start.
   */
  function ExtractDiagramCode(text: string): CodeResult
  {
    var codeStart := Find(text, PythonFence, 0);
    if codeStart != -1 then
      var codeEnd := Find(text, Fence, codeStart + 1);
      if codeEnd != -1 then
        ClosingFenceAfterMarker(text, codeStart);
        Code(Strip(text[codeStart + |PythonFence|..codeEnd]))
      else
        NoClosingFence
    else
      NoDiagramPart
  }

  // ----- extract_main_content -----

  /** The reply comes back unchanged exactly when it holds no "```python". */
  lemma MainContentWholeIffUnmarked(text: string)
    ensures ExtractMainContent(text) == Some(text) <==> !Occurs(text, PythonFence)
  {
    FindFindsOccurrence(text, PythonFence);
  }

  /**
    With the first "```python" at `i`, the prose is the stripped text before
    it, and it is None exactly when that text is all whitespace.
   */
  lemma MainContentAtFirstMarker(text: string, i: int)
    requires FirstAt(text, PythonFence, 0, i)
    ensures ExtractMainContent(text) == None <==> SpaceBetween(text, 0, i)
    ensures ExtractMainContent(text) != None ==> ExtractMainContent(text) == Some(Strip(text[..i]))
  {
    FindIsFirst(text, PythonFence, 0, i);
    var prefix := text[..i];
    SpaceBetweenPrefix(text, i);
    var n := LeadingSpace(prefix);
    if SpaceBetween(prefix, 0, |prefix|) {
      assert n == |prefix|;
    } else {
      assert n < |prefix|;
      assert Strip(prefix)[0] == prefix[n];
    }
  }

  /**
    Whatever follows the first "```python" has no effect on the prose: any
    reply that agrees with `text` up to the end of that marker yields the
    same result.
   */
  lemma MainContentIgnoresRest(text: string, i: int, other: string)
    requires FirstAt(text, PythonFence, 0, i)
    requires i + |PythonFence| <= |other|
    requires other[..i + |PythonFence|] == text[..i + |PythonFence|]
    ensures ExtractMainContent(other) == ExtractMainContent(text)
  {
    var n := i + |PythonFence|;
    FirstAtAgreesOnPrefix(text, other, PythonFence, n, 0, i);
    FindIsFirst(text, PythonFence, 0, i);
    FindIsFirst(other, PythonFence, 0, i);
    SliceAgreesOnPrefix(text, other, n, 0, i);
  }

  // ----- extract_diagram_code -----

  /** "No DIAGRAM part" exactly when the reply holds no "```python". */
  lemma NoDiagramPartIffUnmarked(text: string)
    ensures ExtractDiagramCode(text) == NoDiagramPart <==> !Occurs(text, PythonFence)
  {
    FindFindsOccurrence(text, PythonFence);
  }

  /**
    With the first "```python" at `codeStart`, "no Python code" exactly when
    no "```" starts anywhere after `codeStart`.
   */
  lemma NoClosingFenceIffUnterminated(text: string, codeStart: int)
    requires FirstAt(text, PythonFence, 0, codeStart)
    ensures ExtractDiagramCode(text) == NoClosingFence
        <==> forall k :: codeStart < k ==> !MatchAt(text, Fence, k)
  {
    FindIsFirst(text, PythonFence, 0, codeStart);
    var codeEnd := Find(text, Fence, codeStart + 1);
    if codeEnd != -1 {
      assert MatchAt(text, Fence, codeEnd);
    }
  }

  /**
    With the first "```python" at `codeStart` and the first "```" after it at
    `codeEnd`, the code is the stripped text between the end of the marker
    and the fence, and that range is never reversed.
   */
  lemma CodeBetweenMarkers(text: string, codeStart: int, codeEnd: int)
    requires FirstAt(text, PythonFence, 0, codeStart)
    requires FirstAt(text, Fence, codeStart + 1, codeEnd)
    ensures codeStart + |PythonFence| <= codeEnd
    ensures ExtractDiagramCode(text) == Code(Strip(text[codeStart + |PythonFence|..codeEnd]))
  {
    FindIsFirst(text, PythonFence, 0, codeStart);
    FindIsFirst(text, Fence, codeStart + 1, codeEnd);
    ClosingFenceAfterMarker(text, codeStart);
  }

  /**
    Returned code is a contiguous piece of the reply with no whitespace at
    either end, and it contains no "```" (the first fence closes the block).
    It may be empty, which is a result distinct from both failures.
   */
  lemma CodeIsTrimmedInfix(text: string, c: string)
    requires ExtractDiagramCode(text) == Code(c)
    ensures Trimmed(c) && Occurs(text, c) && !Occurs(c, Fence)
  {
    var codeStart := Find(text, PythonFence, 0);
    var codeEnd := Find(text, Fence, codeStart + 1);
    assert FirstAt(text, PythonFence, 0, codeStart) && FirstAt(text, Fence, codeStart + 1, codeEnd);
    CodeBetweenMarkers(text, codeStart, codeEnd);
    BlockBodyIsTrimmedInfix(text, codeStart, codeEnd);
  }

  /** CodeIsTrimmedInfix, stated on the positions of the two markers. */
  lemma BlockBodyIsTrimmedInfix(text: string, codeStart: int, codeEnd: int)
    requires FirstAt(text, PythonFence, 0, codeStart)
    requires FirstAt(text, Fence, codeStart + 1, codeEnd)
    requires codeStart + |PythonFence| <= codeEnd
    ensures var c := Strip(text[codeStart + |PythonFence|..codeEnd]);
      Trimmed(c) && Occurs(text, c) && !Occurs(c, Fence)
  {
    var a := codeStart + |PythonFence|;
    var body := text[a..codeEnd];
    var c := Strip(body);
    assert MatchAt(body, c, LeadingSpace(body));
    InfixOfSlice(text, Fence, a, codeEnd, c, LeadingSpace(body));
  }

  /**
    Whatever follows the closing fence, a second block included, has no
    effect: any reply that agrees with `text` up to the end of that fence
    yields the same code.
   */
  lemma CodeIgnoresRest(text: string, codeStart: int, codeEnd: int, other: string)
    requires FirstAt(text, PythonFence, 0, codeStart)
    requires FirstAt(text, Fence, codeStart + 1, codeEnd)
    requires codeEnd + |Fence| <= |other|
    requires other[..codeEnd + |Fence|] == text[..codeEnd + |Fence|]
    ensures ExtractDiagramCode(other) == ExtractDiagramCode(text)
  {
    ClosingFenceAfterMarker(text, codeStart);
    FindIsFirst(text, Fence, codeStart + 1, codeEnd);
    var n := codeEnd + |Fence|;
    FirstAtAgreesOnPrefix(text, other, PythonFence, n, 0, codeStart);
    FirstAtAgreesOnPrefix(text, other, Fence, n, codeStart + 1, codeEnd);
    SliceAgreesOnPrefix(text, other, n, codeStart + |PythonFence|, codeEnd);
    SameBlockSameCode(text, other, codeStart, codeEnd);
  }

  /** Two replies with their markers at the same places and the same block body give the same code. */
  lemma SameBlockSameCode(text: string, other: string, codeStart: int, codeEnd: int)
    requires FirstAt(text, PythonFence, 0, codeStart) && FirstAt(other, PythonFence, 0, codeStart)
    requires FirstAt(text, Fence, codeStart + 1, codeEnd) && FirstAt(other, Fence, codeStart + 1, codeEnd)
    requires codeStart + |PythonFence| <= codeEnd
    requires other[codeStart + |PythonFence|..codeEnd] == text[codeStart + |PythonFence|..codeEnd]
    ensures ExtractDiagramCode(other) == ExtractDiagramCode(text)
  {
    CodeBetweenMarkers(text, codeStart, codeEnd);
    CodeBetweenMarkers(other, codeStart, codeEnd);
  }

  /** The two extractors agree on what "no marker" means. */
  lemma WholeProseIffNoDiagramPart(text: string)
    ensures ExtractMainContent(text) == Some(text) <==> ExtractDiagramCode(text) == NoDiagramPart
  {
    MainContentWholeIffUnmarked(text);
    NoDiagramPartIffUnmarked(text);
  }

  /**
    A reply made of backtick-free prose, one "```python" block with a
    backtick-free body, and anything at all after the closing fence: the
    code is the stripped body and the prose the stripped text before the
    block (None when blank).
   */
  lemma ReplyWithOneBlock(prose: string, body: string, rest: string)
    requires '`' !in prose && '`' !in body
    ensures var text := prose + PythonFence + body + Fence + rest;
      && ExtractDiagramCode(text) == Code(Strip(body))
      && ExtractMainContent(text) == (if SpaceBetween(prose, 0, |prose|) then None else Some(Strip(prose)))
  {
    var text := prose + PythonFence + body + Fence + rest;
    var codeStart := |prose|;
    var codeEnd := codeStart + |PythonFence| + |body|;
    OneBlockMarkers(prose, body, rest);
    assert text[codeStart + |PythonFence|..codeEnd] == body;
    CodeBetweenMarkers(text, codeStart, codeEnd);
    MainContentAtFirstMarker(text, codeStart);
    SpaceBetweenPrefix(text, codeStart);
  }

  /** Where ReplyWithOneBlock's two markers stand, and what lies around them. */
  lemma OneBlockMarkers(prose: string, body: string, rest: string)
    requires '`' !in prose && '`' !in body
    ensures var text := prose + PythonFence + body + Fence + rest;
      var codeStart := |prose|;
      var a := codeStart + |PythonFence|;
      && FirstAt(text, PythonFence, 0, codeStart)
      && FirstAt(text, Fence, codeStart + 1, a + |body|)
      && text[..codeStart] == prose
      && text[a..a + |body|] == body
  {
    var text := prose + PythonFence + body + Fence + rest;
    var codeStart := |prose|;
    var a := codeStart + |PythonFence|;
    var codeEnd := a + |body|;
    assert text[codeStart..a] == PythonFence;
    assert text[a..codeEnd] == body;
    assert text[codeEnd..codeEnd + |Fence|] == Fence;
    assert text[..codeStart] == prose;
    NoMatchWithoutHead(text, PythonFence, 0, codeStart);
    FenceNotInsideMarker(text, codeStart);
    assert forall j :: a <= j < codeEnd ==> text[j] == body[j - a];
    NoMatchWithoutHead(text, Fence, a, codeEnd);
  }

  /** The worked example: a sentence, then one block holding `print(1)`. */
  lemma ExampleProseAndCode()
    ensures ExtractDiagramCode("Here is your diagram:\n```python\nprint(1)\n```\nDone.") == Code("print(1)")
    ensures ExtractMainContent("Here is your diagram:\n```python\nprint(1)\n```\nDone.") == Some("Here is your diagram:")
  {
    var prose, body, rest := "Here is your diagram:\n", "\nprint(1)\n", "\nDone.";
    assert prose + PythonFence + body + Fence + rest
        == "Here is your diagram:\n```python\nprint(1)\n```\nDone.";
    ReplyWithOneBlock(prose, body, rest);
    StripExampleBody();
    StripExampleProse();
  }

  lemma StripExampleBody()
    ensures Strip("\nprint(1)\n") == "print(1)"
  {
    assert PaddedAt("\nprint(1)\n", "print(1)", 1);
    StripCharacterised("\nprint(1)\n", "print(1)", 1);
  }

  lemma StripExampleProse()
    ensures !SpaceBetween("Here is your diagram:\n", 0, 22)
    ensures Strip("Here is your diagram:\n") == "Here is your diagram:"
  {
    var prose := "Here is your diagram:\n";
    assert !IsSpace(prose[0]);
    assert PaddedAt(prose, "Here is your diagram:", 0);
    StripCharacterised(prose, "Here is your diagram:", 0);
  }

  /**
    A "```python" block that is never closed: backtick-free prose, the
    marker, then backtick-free text to the end. The result is "no Python
    code", not the unterminated text.
   */
  lemma UnterminatedBlock(prose: string, tail: string)
    requires '`' !in prose && '`' !in tail
    ensures ExtractDiagramCode(prose + PythonFence + tail) == NoClosingFence
  {
    var text := prose + PythonFence + tail;
    var codeStart := |prose|;
    var a := codeStart + |PythonFence|;
    assert text[codeStart..a] == PythonFence;
    NoMatchWithoutHead(text, PythonFence, 0, codeStart);
    assert FirstAt(text, PythonFence, 0, codeStart);
    FenceNotInsideMarker(text, codeStart);
    assert forall j :: a <= j < |text| ==> text[j] == tail[j - a];
    NoMatchWithoutHead(text, Fence, a, |text|);
    NoClosingFenceIffUnterminated(text, codeStart);
  }

  /** A reply with no backtick at all is all prose and has no diagram part. */
  lemma ReplyWithoutBlock(text: string)
    requires '`' !in text
    ensures ExtractDiagramCode(text) == NoDiagramPart
    ensures ExtractMainContent(text) == Some(text)
  {
    NoMatchWithoutHead(text, PythonFence, 0, |text|);
    NoDiagramPartIffUnmarked(text);
    MainContentWholeIffUnmarked(text);
  }

  /** The worked examples of an unterminated block and of a reply without code. */
  lemma ExamplesWithoutCode()
    ensures ExtractDiagramCode("```python\nx=1\n") == NoClosingFence
    ensures ExtractDiagramCode("Just an explanation, no code.") == NoDiagramPart
    ensures ExtractMainContent("Just an explanation, no code.") == Some("Just an explanation, no code.")
  {
    assert [] + PythonFence + "\nx=1\n" == "```python\nx=1\n";
    UnterminatedBlock([], "\nx=1\n");
    ReplyWithoutBlock("Just an explanation, no code.");
  }
}
