/**
  The page's handling of one script run (app.py, the session-state block and
  main_page): the session holds the last reply and the code extracted from
  it; a click overwrites both with a fresh reply; whenever code is held, the
  `st.image` display calls are removed from it and it is handed to `exec`.
 */
module Page {
  import opened Wrappers
  import opened PyText
  import opened Reply

  /** The two display calls the page deletes from generated code. */
  const ImageCallDouble: string := "st.image(\"diagram_temp.png\")"
  const ImageCallSingle: string := "st.image('diagram_temp.png')"

  /**
    The sanitiser: every `st.image("diagram_temp.png")` removed, then every
    `st.image('diagram_temp.png')`. It never lengthens the code, and it
    leaves the code unchanged exactly when neither call occurs in it.
   */
  function Sanitised(code: string): (r: string)
    ensures |r| <= |code|
    ensures r == code <==> !Occurs(code, ImageCallDouble) && !Occurs(code, ImageCallSingle)
  {
    var once := RemoveAll(code, ImageCallDouble);
    RemoveAll(once, ImageCallSingle)
  }

  /**
    Removing the first call splices the text around it together, which can
    form a new call: the sanitiser does not guarantee that no call is left.
   */
  lemma SanitisedMayKeepCall()
    ensures var code := "st.im" + ImageCallDouble + "age(\"diagram_temp.png\")";
      Occurs(Sanitised(code), ImageCallDouble)
  {
    FirstPassSplices();
    DoubleCallHoldsNoSingle();
    assert MatchAt(ImageCallDouble, ImageCallDouble, 0);
  }

  /** The first removal of SanitisedMayKeepCall's input leaves a whole call. */
  lemma FirstPassSplices()
    ensures RemoveAll("st.im" + ImageCallDouble + "age(\"diagram_temp.png\")", ImageCallDouble)
        == ImageCallDouble
  {
    var p, q := "st.im", "age(\"diagram_temp.png\")";
    assert p + q == ImageCallDouble;
    var code := p + ImageCallDouble + q;
    assert code == p + (ImageCallDouble + q);
    forall k | 0 <= k < |p| ensures !MatchAt(code, ImageCallDouble, k) {
      if k == 0 {
        assert code[0..|ImageCallDouble|][5] != ImageCallDouble[5];
      } else {
        assert code[k..k + |ImageCallDouble|][0] != ImageCallDouble[0];
      }
    }
    RemoveAllKeepsClearPrefix(p, ImageCallDouble + q, ImageCallDouble);
    assert (ImageCallDouble + q)[..|ImageCallDouble|] == ImageCallDouble;
    assert RemoveAll(ImageCallDouble + q, ImageCallDouble) == RemoveAll(q, ImageCallDouble);
    assert !Occurs(q, ImageCallDouble);
  }

  /** The double-quoted call does not contain the single-quoted one. */
  lemma DoubleCallHoldsNoSingle()
    ensures !Occurs(ImageCallDouble, ImageCallSingle)
  {
    assert '\'' in ImageCallSingle && '\'' !in ImageCallDouble;
    assert ImageCallDouble[0..|ImageCallSingle|] == ImageCallDouble;
  }

  /** A prefix in which no occurrence of `pat` starts passes through RemoveAll unchanged. */
  lemma {:induction false} RemoveAllKeepsClearPrefix(p: string, t: string, pat: string)
    requires pat != []
    requires forall k :: 0 <= k < |p| ==> !MatchAt(p + t, pat, k)
    ensures RemoveAll(p + t, pat) == p + RemoveAll(t, pat)
    decreases |p|
  {
    if p != [] {
      var s := p + t;
      var tail := p[1..] + t;
      assert s[1..] == tail;
      forall k | 0 <= k < |p| - 1 ensures !MatchAt(tail, pat, k) {
        assert !MatchAt(s, pat, k + 1);
        if k + |pat| <= |tail| {
          MatchInSlice(s, pat, 1, |s|, k);
        }
      }
      RemoveAllKeepsClearPrefix(p[1..], t, pat);
      assert !MatchAt(s, pat, 0);
      if |s| < |pat| {
        assert RemoveAll(t, pat) == t;
      } else {
        assert s[..|pat|] != pat;
        assert RemoveAll(s, pat) == [s[0]] + RemoveAll(tail, pat);
        assert p == [p[0]] + p[1..];
      }
    } else {
      assert p + t == t;
    }
  }

  /**
    The session state of one browser session: the last reply and the code
    extracted from it, `None` for both before the first click.
   */
  class Session {
    var response: Option<string>
    var currentCode: Option<string>

    /** The held code is always the code extracted from the held reply. */
    predicate Valid()
      reads this
    {
      if response == None then currentCode == None
      else currentCode == AsPython(ExtractDiagramCode(response.value))
    }

    /** First run of the script in a session: both keys set to None. */
    constructor ()
      ensures Valid()
      ensures response == None && currentCode == None
    {
      response := None;
      currentCode := None;
    }

    /**
      The button was clicked and the model answered `reply`: both fields
      are overwritten; the notice is what the page writes when no code
      was found.
     */
    method Click(reply: string) returns (notice: Option<string>)
      modifies this
      ensures Valid()
      ensures response == Some(reply)
      ensures currentCode == AsPython(ExtractDiagramCode(reply))
      ensures notice == Notice(ExtractDiagramCode(reply))
    {
      var extracted := ExtractDiagramCode(reply);
      response := Some(reply);
      currentCode := AsPython(extracted);
      notice := Notice(extracted);
    }

    /**
      The code handed to `exec`, if any: nothing when no code is held,
      otherwise the held code with the display calls removed.
     */
    method CodeToRun() returns (attempt: Option<string>)
      ensures attempt == None <==> currentCode == None
      ensures currentCode != None ==> attempt == Some(Sanitised(currentCode.value))
    {
      var code := currentCode;
      if code != None {
        var c := code.value;
        c := RemoveAll(c, ImageCallDouble);
        c := RemoveAll(c, ImageCallSingle);
        attempt := Some(c);
      } else {
        attempt := None;
      }
    }

    /**
      One run of main_page: on a click the session takes
      the new reply, without one it keeps what it held; then the held code,
      if any, is sanitised and handed to `exec`.
     */
    method Run(clicked: bool, reply: string) returns (notice: Option<string>, attempt: Option<string>)
      requires Valid()
      modifies this
      ensures Valid()
      ensures clicked ==> response == Some(reply) && currentCode == AsPython(ExtractDiagramCode(reply))
      ensures !clicked ==> response == old(response) && currentCode == old(currentCode)
      ensures notice == if clicked then Notice(ExtractDiagramCode(reply)) else None
      ensures attempt == None <==> currentCode == None
      ensures currentCode != None ==> attempt == Some(Sanitised(currentCode.value))
    {
      notice := None;
      if clicked {
        notice := Click(reply);
      }
      attempt := CodeToRun();
    }
  }

  /**
    The first run of the script in a session: the session keys are set to
    None and main_page then runs with the button not yet clicked, so no
    notice is written and nothing reaches `exec`.
   */
  method FirstRun() returns (notice: Option<string>, attempt: Option<string>)
    ensures notice == None && attempt == None
  {
    var session := new Session();
    notice, attempt := session.Run(false, "");
  }

  /**
    A session driven through the worked example: one click on a reply
    holding a `print(1)` block, and `exec` is attempted on `print(1)`.
   */
  method ExampleSession() returns (notice: Option<string>, attempt: Option<string>)
    ensures notice == None
    ensures attempt == Some("print(1)")
  {
    var session := new Session();
    ExampleProseAndCode();
    var reply := "Here is your diagram:\n```python\nprint(1)\n```\nDone.";
    notice, attempt := session.Run(true, reply);
    assert !Occurs("print(1)", ImageCallDouble) && !Occurs("print(1)", ImageCallSingle);
  }
}
