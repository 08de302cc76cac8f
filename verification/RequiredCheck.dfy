/** The check for missing required fields, in terms of the tags in the input. */
module RequiredCheck {
  import opened Common
  import opened Descriptor
  import opened DecodeSpec
  import opened Records
  import opened RequiredFields

  /** The field numbers of the records the loop reads in `s`. */
  function TagsRead(d: Desc, s: bytes): set<nat>
    decreases |s|
  {
    if s == [] || !DecTag(s).FieldTag? then {}
    else
      var FieldTag(tag, wt, n) := DecTag(s);
      match FrameLen(FramingOf(d, tag, wt), s[n..])
      case None => {}
      case Some(k) => {tag} + TagsRead(d, s[n..][k..])
  }

  /** The index of a required field among the required fields identifies it. */
  lemma MarkOfTag(d: Desc, i: nat, tag: nat, wt: nat, p: bytes, st: State)
    requires UniqueTags(d.fields) && i < |d.fields| && d.fields[i].htype.Required?
    requires RequiredBefore(d.fields, i) < PB_MAX_REQUIRED_FIELDS && Apply(d, tag, wt, p, st).Some?
    ensures var k := RequiredBefore(d.fields, i);
            k in Apply(d, tag, wt, p, st).value.seen <==> k in st.seen || tag == d.fields[i].tag
  {
    hide ApplyField, RequiredBefore;
    if tag == d.fields[i].tag {
      FindUnique(d, i);
    } else if !MatchesTerminator(d, tag) && Find(d, tag).Some? {
      var j := Find(d, tag).value;
      if d.fields[j].htype.Required? {
        RequiredMonotone(d.fields, if i < j then i else j, if i < j then j else i);
      }
    }
  }

  /** The bitmap stands for the set of required tags in the input, for every input. */
  lemma {:induction false} MarksAreTags(d: Desc, s: bytes, st: State, i: nat)
    requires UniqueTags(d.fields) && i < |d.fields| && d.fields[i].htype.Required?
    requires RequiredBefore(d.fields, i) < PB_MAX_REQUIRED_FIELDS && Loop(d, s, st).Some?
    ensures var k := RequiredBefore(d.fields, i);
            k in Loop(d, s, st).value.st.seen <==> k in st.seen || d.fields[i].tag in TagsRead(d, s)
    decreases |s|
  {
    hide Apply, DecTag, FrameLen, FramingOf, RequiredBefore, Loop;
    LoopCases(d, s, st);
    if s != [] && DecTag(s).FieldTag? {
      LoopTurn(d, s, st);
      var FieldTag(tag, wt, n) := DecTag(s);
      var k := FrameLen(FramingOf(d, tag, wt), s[n..]).value;
      var p, rest := s[n..][..k], s[n..][k..];
      MarkOfTag(d, i, tag, wt, p, st);
      MarksAreTags(d, rest, Apply(d, tag, wt, p, st).value, i);
    }
  }

  /** Is the tag of every checked required field among the tags read? */
  ghost predicate AllRequiredRead(d: Desc, s: bytes) {
    forall i :: (0 <= i < |d.fields| && d.fields[i].htype.Required?
                 && RequiredBefore(d.fields, i) < 64) ==>
      d.fields[i].tag in TagsRead(d, s)
  }

  /**
   * Decoding succeeds exactly when all records can be read, the last fixed count array is
   * complete, and each of the first 64 required fields had its tag in the input.
   */
  lemma RequiredCheckMeaning(d: Desc, s: bytes, cells: Cells)
    requires UniqueTags(d.fields)
    ensures DecNoinit(d, s, cells).Some? <==>
              && Loop(d, s, Start(cells)).Some?
              && ArrayDone(d, Loop(d, s, Start(cells)).value.st.fixed)
              && AllRequiredRead(d, s)
  {
    hide Loop, TagsRead, RequiredBefore, ArrayDone, SeenBelow;
    var r := Loop(d, s, Start(cells));
    if r.Some? {
      var seen := r.value.st.seen;
      SeenBelowIsForall(CheckedFields(d), seen);
      if AllRequiredRead(d, s) {
        forall k: nat | k < CheckedFields(d) ensures k in seen {
          var i := RequiredAt(d.fields, |d.fields|, k);
          MarksAreTags(d, s, Start(cells), i);
        }
      }
      if SeenBelow(CheckedFields(d), seen) {
        forall i | 0 <= i < |d.fields| && d.fields[i].htype.Required?
                   && RequiredBefore(d.fields, i) < PB_MAX_REQUIRED_FIELDS
          ensures d.fields[i].tag in TagsRead(d, s)
        {
          RequiredMonotone(d.fields, i, |d.fields|);
          MarksAreTags(d, s, Start(cells), i);
        }
      }
    }
  }
}
