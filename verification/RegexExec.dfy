/** `regexec` on the strip of a regular expression: the search for a match followed by the
    dissection of the match, stated in terms of the language of the expression. */
module RegexExec {
  import opened Bytes
  import opened RegexStrip
  import opened RegexMatcher
  import opened RegexLeftmost
  import opened RegexLanguage
  import opened RegexRuns
  import opened RegexWays
  import opened RegexDissect
  import opened RegexGroups

  /** `Aborted` is the failure of the assertion in the search for the last turn of a loop. */
  datatype Result = NoMatch | Matched(slots: seq<Slot>) | Aborted

  /** The strip laid out by `regcomp`: the operators of `re` between two end markers. */
  ghost predicate StripOf(strip: seq<Sop>, re: Re) {
    |strip| >= 2 && strip[0].OEnd? && strip[|strip| - 1].OEnd? && ReAt(strip, 1, |strip| - 1, re)
  }

  ghost predicate SomeWord(re: Re, text: seq<byte>) {
    exists i, j :: Lang(re, text, i, j)
  }

  /** `text[so..eo]` is in the language, and no longer piece of text from `so` on is. */
  ghost predicate LongestWord(re: Re, text: seq<byte>, so: int, eo: int) {
    Lang(re, text, so, eo) && forall e :: e > eo ==> !Lang(re, text, so, e)
  }

  ghost predicate NoWordBefore(re: Re, text: seq<byte>, so: int) {
    forall i, j :: i < so ==> !Lang(re, text, i, j)
  }

  /** Slot `i` of the caller is the recorded slot, or unset when there is none. */
  ghost predicate Filled(slots: seq<Slot>, nmatch: nat, so: int, eo: int, rec: seq<Slot>) {
    && |slots| == nmatch
    && (nmatch > 0 ==> slots[0] == Slot(so, eo))
    && (forall i :: 0 < i < nmatch ==> slots[i] == if i < |rec| then rec[i] else Slot(-1, -1))
  }

  lemma AnyMatchIsWord(strip: seq<Sop>, re: Re, text: seq<byte>)
    requires StripOf(strip, re)
    ensures AnyMatch(strip, 1, |strip| - 1, text) <==> SomeWord(re, text)
  {
    var hi := |strip| - 1;
    if AnyMatch(strip, 1, hi, text) {
      var i, j :| 0 <= i <= j <= |text| && Spans(strip, 1, hi, text, i, j);
      SpansIffLang(strip, 1, hi, re, text, i, j);
    }
    if i, j :| Lang(re, text, i, j) {
      LangBounds(re, text, i, j);
      SpansIffLang(strip, 1, hi, re, text, i, j);
    }
  }

  lemma ReportedIsWord(strip: seq<Sop>, re: Re, text: seq<byte>, so: int, eo: int)
    requires StripOf(strip, re) && Reported(strip, 1, |strip| - 1, text, so, eo)
    ensures 0 <= so && LongestWord(re, text, so, eo)
    ensures !Confusable(strip, 1, |strip| - 1) ==> NoWordBefore(re, text, so)
  {
    var hi := |strip| - 1;
    var cold :| ColdPoint(strip, 1, hi, text, cold) && cold <= so &&
                forall k :: cold <= k < so ==> !StartsAt(strip, 1, hi, text, k);
    assert 0 <= cold;
    SpansIffLang(strip, 1, hi, re, text, so, eo);
    forall e | e > eo ensures !Lang(re, text, so, e) {
      if Lang(re, text, so, e) {
        LangBounds(re, text, so, e);
        SpansIffLang(strip, 1, hi, re, text, so, e);
      }
    }
    if !Confusable(strip, 1, hi) {
      CodeWellFormed(strip, 1, hi, re);
      LeftmostIffNotConfusable(strip, 1, hi);
      forall i, j | i < so ensures !Lang(re, text, i, j) {
        if Lang(re, text, i, j) {
          LangBounds(re, text, i, j);
          SpansIffLang(strip, 1, hi, re, text, i, j);
          assert StartsAt(strip, 1, hi, text, i);
        }
      }
    }
  }

  /** The slot of each group is set exactly if the group was passed, and it delimits a word of
      the group's body inside the match: what was matched the last time. */
  ghost predicate GroupSlots(re: Re, text: seq<byte>, so: int, eo: int, slots: seq<Slot>) {
    forall n, body :: 0 < n < |slots| && Grouped(re, n, body) ==> SlotOfGroup(re, n, body, text, so, eo, slots[n])
  }

  /** `matcher` with any number of slots, on a strip without back-references.  The slots of the
      subexpressions are those of the way that `dissect` takes through the match. */
  method Exec(strip: seq<Sop>, nsub: nat, nosub: bool, input: seq<byte>, nmatch: nat, ghost re: Re)
    returns (r: Result, ghost so: int, ghost eo: int)
    requires StripOf(strip, re) && Parens(re, nsub + 1)
    ensures r.NoMatch? <==> !SomeWord(re, input)
    ensures r.Matched? && (nosub || nmatch == 0) ==> r.slots == []
    ensures !nosub && nmatch > 0 && !r.NoMatch? ==>
      LongestWord(re, input, so, eo) && (!Confusable(strip, 1, |strip| - 1) ==> NoWordBefore(re, input, so))
    ensures !nosub && nmatch == 1 && r.Matched? ==> r.slots == [Slot(so, eo)]
    ensures !nosub && nmatch > 1 && r.Matched? ==>
      && Filled(r.slots, nmatch, so, eo, Record(seq(nsub + 1, _ => Slot(-1, -1)), 0, Taken(re, input, so, eo)))
      && Events(re, input, so, eo, Taken(re, input, so, eo))
    ensures !nosub && r.Matched? ==> GroupSlots(re, input, so, eo, r.slots)
    ensures r.Aborted? <==> !r.NoMatch? && nmatch > 1 && !nosub && !Clean(re, input, so, eo)
    ensures Exhaustives(re) || FixedLoops(re) ==> !r.Aborted?
  {
    so, eo := 0, 0;
    CodeWellFormed(strip, 1, |strip| - 1, re);
    AnyMatchIsWord(strip, re, input);
    assert input[0..|input|] == input;
    var slots := if nosub then 0 else nmatch;
    var found := Matcher(strip, 1, |strip| - 1, nosub, input, nmatch, false, (0, 0));
    match found {
      case NoMatch => r := Result.NoMatch;
      case Yes => r := Matched([]);
      case Found(s, e) =>
        so, eo := s, e;
        ReportedIsWord(strip, re, input, s, e);
        if slots == 1 {
          return Matched([Slot(s, e)]), so, eo;
        }
        r := Subexpressions(strip, nsub, input, nmatch, s, e, re);
      case InvArg =>
    }
  }

  /** The part of `matcher` that fills the slots of the subexpressions. */
  method Subexpressions(strip: seq<Sop>, nsub: nat, input: seq<byte>, nmatch: nat, so: int, eo: int, ghost re: Re)
    returns (r: Result)
    requires StripOf(strip, re) && Parens(re, nsub + 1) && Lang(re, input, so, eo) && nmatch > 1
    ensures r.Matched? ==>
      && Filled(r.slots, nmatch, so, eo, Record(seq(nsub + 1, _ => Slot(-1, -1)), 0, Taken(re, input, so, eo)))
      && Events(re, input, so, eo, Taken(re, input, so, eo)) && GroupSlots(re, input, so, eo, r.slots)
    ensures r == Aborted <==> !Clean(re, input, so, eo)
    ensures r != Aborted ==> r.Matched?
    ensures Exhaustives(re) || FixedLoops(re) ==> r.Matched?
  {
    var m := new Match(strip, input, 0);
    m.pmatch := seq(nsub + 1, _ => Slot(-1, -1));
    var ok := Dissect(m, so, eo, 1, |strip| - 1, re);
    if FixedLoops(re) {
      FixedLoopsExhaustive(re);
    }
    if Exhaustives(re) {
      ExhaustivesClean(re, input, so, eo);
    }
    if !ok {
      return Aborted;
    }
    TakenEvents(re, input, so, eo);
    var rec := m.pmatch;
    forall n, body | 0 < n < nmatch && Grouped(re, n, body)
      ensures SlotOfGroup(re, n, body, input, so, eo, if n < |rec| then rec[n] else Slot(-1, -1))
    {
      GroupRecorded(re, nsub, n, body, input, so, eo, rec);
    }
    r := Matched(seq(nmatch, i => if i == 0 then Slot(so, eo) else if 0 < i < |rec| then rec[i] else Slot(-1, -1)));
  }
}
