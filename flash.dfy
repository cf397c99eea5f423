/**
 * The judgement passed on what JLinkExe and `srec_cat` print
 * (`analyze_output`): a missing debug probe is looked for first, then
 * the word `failed`; anything else is success.
 */
module FlashTool {
  import opened Text

  /** What a tool run reports when the debug probe's serial device is absent. */
  const ProbeMissing: string := "/dev/ttyBmpGdb: No such file or directory."

  /** What a tool run reports when the target did not respond. */
  const Failed: string := "failed"

  /** How a tool run is judged; the two failures end the program. */
  datatype ToolOutcome = Succeeded | ProbeDisconnected | UploadFailed

  function AnalyzeOutput(outputText: string): ToolOutcome
  {
    if Contains(outputText, ProbeMissing) then ProbeDisconnected
    else if Contains(outputText, Failed) then UploadFailed
    else Succeeded
  }

  /** Each outcome, by the substrings the output holds (in both directions). */
  lemma AnalyzeOutputSpec(outputText: string)
    ensures AnalyzeOutput(outputText) == ProbeDisconnected <==> Occurs(outputText, ProbeMissing)
    ensures AnalyzeOutput(outputText) == UploadFailed
      <==> !Occurs(outputText, ProbeMissing) && Occurs(outputText, Failed)
    ensures AnalyzeOutput(outputText) == Succeeded
      <==> !Occurs(outputText, ProbeMissing) && !Occurs(outputText, Failed)
  {
    ContainsIff(outputText, ProbeMissing);
    ContainsIff(outputText, Failed);
  }

  /** A longer output that starts with a judged output: more text can only make the verdict worse. */
  lemma AnalyzeOutputExtends(outputText: string, more: string)
    ensures AnalyzeOutput(outputText) == ProbeDisconnected ==> AnalyzeOutput(outputText + more) == ProbeDisconnected
    ensures AnalyzeOutput(outputText + more) == Succeeded ==> AnalyzeOutput(outputText) == Succeeded
  {
    var t := outputText + more;
    ContainsIff(outputText, ProbeMissing);
    ContainsIff(outputText, Failed);
    ContainsIff(t, ProbeMissing);
    ContainsIff(t, Failed);
    if Occurs(outputText, ProbeMissing) {
      var i: nat :| OccursAt(outputText, ProbeMissing, i);
      assert t[i..i + |ProbeMissing|] == outputText[i..i + |ProbeMissing|];
      assert OccursAt(t, ProbeMissing, i);
    }
    if Occurs(outputText, Failed) {
      var i: nat :| OccursAt(outputText, Failed, i);
      assert t[i..i + |Failed|] == outputText[i..i + |Failed|];
      assert OccursAt(t, Failed, i);
    }
  }

  /** When the probe is missing and the upload also reports a failure, the missing probe is what counts. */
  lemma ProbeBeforeFailure(prefix: string, middle: string, suffix: string)
    ensures AnalyzeOutput(prefix + ProbeMissing + middle + Failed + suffix) == ProbeDisconnected
    ensures AnalyzeOutput(prefix + Failed + middle + ProbeMissing + suffix) == ProbeDisconnected
  {
    var t1 := prefix + ProbeMissing + middle + Failed + suffix;
    var t2 := prefix + Failed + middle + ProbeMissing + suffix;
    assert OccursAt(t1, ProbeMissing, |prefix|) by {
      assert t1[|prefix|..|prefix| + |ProbeMissing|] == ProbeMissing;
    }
    var j := |prefix| + |Failed| + |middle|;
    assert OccursAt(t2, ProbeMissing, j) by {
      assert t2[j..j + |ProbeMissing|] == ProbeMissing;
    }
    AnalyzeOutputSpec(t1);
    AnalyzeOutputSpec(t2);
  }

  /** `failed` anywhere in an output without the probe marker is an upload failure. */
  lemma FailedAnywhere(prefix: string, suffix: string)
    requires !Occurs(prefix + Failed + suffix, ProbeMissing)
    ensures AnalyzeOutput(prefix + Failed + suffix) == UploadFailed
  {
    var t := prefix + Failed + suffix;
    assert OccursAt(t, Failed, |prefix|) by {
      assert t[|prefix|..|prefix| + |Failed|] == Failed;
    }
    AnalyzeOutputSpec(t);
  }
}
