/**
 `RFIDChecker`: the object the polling thread owns. It holds the text last
 read from the watched file and the results of the last uniqueness check,
 and its methods overwrite those fields.
 */
module Checker {
  import opened Wrappers
  import opened Text
  import opened Tags
  import opened Uniqueness
  import opened Status
  import opened Polling

  class RfidChecker {
    var txtContents: string
    var isUnique: bool
    var len: nat

    /** The result fields describe the current contents. */
    ghost predicate Consistent()
      reads this
    {
      len == |TagsOf(txtContents)| && isUnique == Distinct(TagsOf(txtContents))
    }

    /** `RFIDChecker::new`: no contents, reported unique, no candidates. */
    constructor ()
      ensures txtContents == "" && isUnique && len == 0
      ensures Consistent()
    {
      txtContents := "";
      isUnique := true;
      len := 0;
    }

    /** `set_content`: replaces the contents and leaves the results as they were. */
    method SetContent(txt: string)
      modifies this
      ensures txtContents == txt
      ensures isUnique == old(isUnique) && len == old(len)
    {
      txtContents := txt;
    }

    /**
     `check_unique`: records how many tag candidates the contents hold and
     whether they are pairwise distinct, and returns the latter.
     */
    method CheckUnique() returns (unique: bool)
      modifies this
      ensures txtContents == old(txtContents)
      ensures len == |TagsOf(txtContents)|
      ensures isUnique == unique
      ensures unique <==> Distinct(TagsOf(txtContents))
      ensures Consistent()
    {
      var tokens := SplitWhitespace(txtContents);
      var rfids := Candidates(tokens);
      len := |rfids|;
      isUnique := SuffixCheckUnique(rfids);
      SuffixCheckIffDistinct(rfids);
      unique := isUnique;
    }

    /**
     One iteration of the loop in `run_every_sec`. After a successful read
     the checker holds the file's text and consistent results; otherwise it
     is left as it was.
     */
    method RunCycle(input: CycleInput, wait: nat) returns (out: CycleOutcome)
      modifies this
      ensures out == Cycle(input, wait)
      ensures ReadSucceeds(input) ==>
        txtContents == input.readFile(input.path.value).text && Consistent()
      ensures !ReadSucceeds(input) ==>
        txtContents == old(txtContents) && isUnique == old(isUnique) && len == old(len)
    {
      var submitted: Option<ScanResult> := None;
      if input.path.Some? {
        var path := input.path.value;
        if Utf8Len(path) > 0 {
          match input.readFile(path) {
            case Contents(text) =>
              SetContent(text);
              var unique := CheckUnique();
              SuffixCheckIffDistinct(TagsOf(text));
              submitted := Some(Classify(unique, len));
              if !input.channelOpen {
                return CycleOutcome(submitted, false, None);
              }
            case ReadError(_) =>
          }
        }
      }
      out := CycleOutcome(submitted, true, CheckedSub(wait, input.runtime));
    }

    /**
     `run_every_sec` over a finite sequence of cycles: runs them in order and
     stops after the first cycle whose status the channel refused. The
     checker then holds the text of the last cycle that read the file, with
     results that describe it; a run that never read the file leaves the
     checker as it was.
     */
    method RunEverySec(inputs: seq<CycleInput>, wait: nat) returns (outcomes: seq<CycleOutcome>)
      modifies this
      ensures outcomes == Trace(inputs, wait)
      ensures txtContents == FinalText(inputs, wait, old(txtContents))
      ensures ReadBefore(inputs, |outcomes|) ==> Consistent()
      ensures !ReadBefore(inputs, |outcomes|) ==>
        txtContents == old(txtContents) && isUnique == old(isUnique) && len == old(len)
      ensures old(Consistent()) ==> Consistent()
    {
      outcomes := [];
      var i := 0;
      ghost var read := false;
      assert inputs[0..] == inputs;
      while i < |inputs|
        invariant 0 <= i <= |inputs| && |outcomes| == i
        invariant outcomes + Trace(inputs[i..], wait) == Trace(inputs, wait)
        invariant FinalText(inputs[i..], wait, txtContents) == FinalText(inputs, wait, old(txtContents))
        invariant read == ReadBefore(inputs, i)
        invariant read ==> Consistent()
        invariant !read ==> txtContents == old(txtContents) && isUnique == old(isUnique) && len == old(len)
      {
        ghost var before := txtContents;
        var out := RunCycle(inputs[i], wait);
        TraceFrom(inputs, i, wait);
        FinalTextFrom(inputs, i, wait, before);
        ReadBeforeNext(inputs, i);
        read := read || ReadSucceeds(inputs[i]);
        if !out.continues {
          outcomes := outcomes + [out];
          return;
        }
        var rest := Trace(inputs[i + 1..], wait);
        AppendAssoc(outcomes, [out], rest);
        outcomes := outcomes + [out];
        i := i + 1;
      }
    }
  }

  /** Sequence concatenation is associative. */
  lemma AppendAssoc<T>(a: seq<T>, b: seq<T>, c: seq<T>)
    ensures a + (b + c) == (a + b) + c
  {
  }

  /** Checking the same contents twice gives the same answer both times. */
  method CheckTwice(c: RfidChecker) returns (first: bool, second: bool)
    modifies c
    ensures first == second
    ensures c.txtContents == old(c.txtContents)
  {
    first := c.CheckUnique();
    second := c.CheckUnique();
  }
}
