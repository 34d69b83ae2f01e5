/** Which glossary target terms TransTipsPopup.addItems offers in the
    editor's context menu. The glossary entries of the current segment and,
    for each, the token groups the glossary manager matched in the source
    text are inputs; the result is the list of term strings the menu gets,
    in order. */
module TermSelection {

  /** A matched word of the segment's source text: offset and length in characters. */
  datatype Token = Token(offset: int, length: int)

  /** A glossary entry of the current segment: its target terms and the token
      groups (one per match) found for it in the source text. */
  datatype Entry = Entry(locTerms: seq<string>, tokenGroups: seq<seq<Token>>)

  /** Where and how the popup was opened. */
  datatype Click = Click(
    markGlossary: bool,          // the editor marks glossary matches
    inActiveEntry: bool,
    inActiveTranslation: bool,
    startSource: int,            // position of the active entry's source text
    sourceLength: nat,           // length of that source text
    mousepos: int)

  /** The three guards: marking is on, the mouse is in the active entry but
      not in its translation, and it lies within the source text (both ends
      included). */
  predicate PopupApplies(c: Click) {
    && c.markGlossary
    && c.inActiveEntry && !c.inActiveTranslation
    && c.startSource <= c.mousepos <= c.startSource + c.sourceLength
  }

  /** The mouse is on the token, both ends included. */
  predicate OnToken(c: Click, tok: Token) {
    c.startSource + tok.offset <= c.mousepos <= c.startSource + tok.offset + tok.length
  }

  /** Some token of some group is under the mouse. */
  predicate HitsGroups(c: Click, groups: seq<seq<Token>>) {
    exists g, t :: 0 <= g < |groups| && 0 <= t < |groups[g]| && OnToken(c, groups[g][t])
  }

  /** The candidate terms met while scanning one group of tokens: the entry's
      target terms once for every token under the mouse. */
  function TokenTerms(c: Click, e: Entry, toks: seq<Token>): (r: seq<string>) {
    if toks == [] then []
    else TokenTerms(c, e, toks[..|toks| - 1]) + (if OnToken(c, toks[|toks| - 1]) then e.locTerms else [])
  }

  /** The candidate terms met while scanning the token groups of one entry. */
  function GroupTerms(c: Click, e: Entry, groups: seq<seq<Token>>): (r: seq<string>) {
    if groups == [] then []
    else GroupTerms(c, e, groups[..|groups| - 1]) + TokenTerms(c, e, groups[|groups| - 1])
  }

  /** The candidate terms met while scanning all entries, in scan order. */
  function EntryTerms(c: Click, entries: seq<Entry>): (r: seq<string>) {
    if entries == [] then []
    else
      var e := entries[|entries| - 1];
      EntryTerms(c, entries[..|entries| - 1]) + GroupTerms(c, e, e.tokenGroups)
  }

  /** First occurrences only, in first-seen order. */
  function Dedup(xs: seq<string>): (r: seq<string>) {
    if xs == [] then []
    else
      var d := Dedup(xs[..|xs| - 1]);
      if xs[|xs| - 1] in d then d else d + [xs[|xs| - 1]]
  }

  /** The terms the menu receives. */
  function Offered(c: Click, entries: seq<Entry>): (terms: seq<string>)
    ensures terms != [] ==> PopupApplies(c)
  {
    if PopupApplies(c) then Dedup(EntryTerms(c, entries)) else []
  }

  /** The innermost loop of addItems: each term not yet in `added` goes to
      the menu and into `added`. `seen` is the candidate sequence the menu
      was built from so far. */
  method AddUnseen(menu: seq<string>, added: set<string>, locTerms: seq<string>, ghost seen: seq<string>)
    returns (menu': seq<string>, added': set<string>)
    requires menu == Dedup(seen)
    requires forall s :: s in added <==> s in menu
    ensures menu' == Dedup(seen + locTerms)
    ensures forall s :: s in added' <==> s in menu'
  {
    menu', added' := menu, added;
    assert seen + locTerms[..0] == seen;
    for n := 0 to |locTerms|
      invariant menu' == Dedup(seen + locTerms[..n])
      invariant forall s :: s in added' <==> s in menu'
    {
      var s := locTerms[n];
      assert (seen + locTerms[..n + 1])[..|seen| + n] == seen + locTerms[..n];
      if s !in added' {
        added' := added' + {s};
        menu' := menu' + [s];
      }
    }
    assert locTerms[..|locTerms|] == locTerms;
  }

  /** The loops of addItems: every entry, every token group, every token; on
      a token under the mouse, every target term not yet in `added` is added
      to the menu. */
  method AddItems(c: Click, entries: seq<Entry>) returns (menu: seq<string>)
    ensures menu == Offered(c, entries)
  {
    menu := [];
    if !c.markGlossary {
      return;
    }
    if !c.inActiveEntry || c.inActiveTranslation {
      return;
    }
    // the mouse must lie within the source text, both ends included
    var startSource := c.startSource;
    var len := c.sourceLength;
    if c.mousepos < startSource || c.mousepos > startSource + len {
      return;
    }
    var added: set<string> := {};
    for i := 0 to |entries|
      invariant menu == Dedup(EntryTerms(c, entries[..i]))
      invariant forall s :: s in added <==> s in menu
    {
      var ge := entries[i];
      ghost var before := EntryTerms(c, entries[..i]);
      assert before + GroupTerms(c, ge, ge.tokenGroups[..0]) == before;
      for j := 0 to |ge.tokenGroups|
        invariant menu == Dedup(before + GroupTerms(c, ge, ge.tokenGroups[..j]))
        invariant forall s :: s in added <==> s in menu
      {
        var toks := ge.tokenGroups[j];
        ghost var groupsBefore := before + GroupTerms(c, ge, ge.tokenGroups[..j]);
        assert groupsBefore + TokenTerms(c, ge, toks[..0]) == groupsBefore;
        for k := 0 to |toks|
          invariant menu == Dedup(groupsBefore + TokenTerms(c, ge, toks[..k]))
          invariant forall s :: s in added <==> s in menu
        {
          var tok := toks[k];
          ghost var tokensBefore := groupsBefore + TokenTerms(c, ge, toks[..k]);
          TokenTermsStep(c, ge, toks, k, groupsBefore);
          // the mouse must lie within the token, both ends included
          if startSource + tok.offset <= c.mousepos && c.mousepos <= startSource + tok.offset + tok.length {
            menu, added := AddUnseen(menu, added, ge.locTerms, tokensBefore);
          } else {
            assert tokensBefore + [] == tokensBefore;
          }
        }
        GroupTermsStep(c, ge, ge.tokenGroups, j, before);
      }
      EntryTermsStep(c, entries, i);
    }
    assert entries[..|entries|] == entries;
  }

  lemma TokenTermsStep(c: Click, e: Entry, toks: seq<Token>, k: nat, prefix: seq<string>)
    requires k < |toks|
    ensures prefix + TokenTerms(c, e, toks[..k + 1])
      == prefix + TokenTerms(c, e, toks[..k]) + (if OnToken(c, toks[k]) then e.locTerms else [])
  {
    assert toks[..k + 1][..k] == toks[..k];
  }

  lemma GroupTermsStep(c: Click, e: Entry, groups: seq<seq<Token>>, j: nat, prefix: seq<string>)
    requires j < |groups|
    ensures prefix + GroupTerms(c, e, groups[..j + 1])
      == prefix + GroupTerms(c, e, groups[..j]) + TokenTerms(c, e, groups[j][..|groups[j]|])
  {
    assert groups[..j + 1][..j] == groups[..j];
    assert groups[j][..|groups[j]|] == groups[j];
  }

  lemma EntryTermsStep(c: Click, entries: seq<Entry>, i: nat)
    requires i < |entries|
    ensures EntryTerms(c, entries[..i + 1])
      == EntryTerms(c, entries[..i]) + GroupTerms(c, entries[i], entries[i].tokenGroups[..|entries[i].tokenGroups|])
  {
    assert entries[..i + 1][..i] == entries[..i];
    assert entries[i].tokenGroups[..|entries[i].tokenGroups|] == entries[i].tokenGroups;
  }

  /** Dedup keeps exactly the elements of its input. */
  lemma {:induction false} DedupMembers(xs: seq<string>)
    ensures forall x :: x in Dedup(xs) <==> x in xs
  {
    if xs != [] {
      var front := xs[..|xs| - 1];
      DedupMembers(front);
      assert xs == front + [xs[|xs| - 1]];
    }
  }

  /** Dedup never lists an element twice. */
  lemma {:induction false} DedupDistinct(xs: seq<string>)
    ensures forall i, j :: 0 <= i < j < |Dedup(xs)| ==> Dedup(xs)[i] != Dedup(xs)[j]
  {
    if xs != [] {
      DedupDistinct(xs[..|xs| - 1]);
    }
  }

  /** First-seen order: the list built from any prefix of the candidates is
      a prefix of the final list, so no later candidate moves an earlier one. */
  lemma {:induction false} DedupPrefix(xs: seq<string>, k: nat)
    requires k <= |xs|
    ensures Dedup(xs[..k]) <= Dedup(xs)
    decreases |xs|
  {
    if k < |xs| {
      var front := xs[..|xs| - 1];
      assert xs[..k] == front[..k];
      DedupPrefix(front, k);
    } else {
      assert xs[..k] == xs;
    }
  }

  lemma {:induction false} TokenTermsMembers(c: Click, e: Entry, toks: seq<Token>, x: string)
    ensures x in TokenTerms(c, e, toks) <==>
      x in e.locTerms && exists t :: 0 <= t < |toks| && OnToken(c, toks[t])
  {
    if toks != [] {
      var front := toks[..|toks| - 1];
      TokenTermsMembers(c, e, front, x);
      if x in e.locTerms && exists t :: 0 <= t < |toks| && OnToken(c, toks[t]) {
        var t :| 0 <= t < |toks| && OnToken(c, toks[t]);
        if t < |front| {
          assert front[t] == toks[t];
        }
      }
    }
  }

  lemma {:induction false} GroupTermsMembers(c: Click, e: Entry, groups: seq<seq<Token>>, x: string)
    ensures x in GroupTerms(c, e, groups) <==> x in e.locTerms && HitsGroups(c, groups)
  {
    if groups != [] {
      var front, last := groups[..|groups| - 1], groups[|groups| - 1];
      GroupTermsMembers(c, e, front, x);
      TokenTermsMembers(c, e, last, x);
      if x in e.locTerms && HitsGroups(c, groups) {
        var g, t :| 0 <= g < |groups| && 0 <= t < |groups[g]| && OnToken(c, groups[g][t]);
        if g < |front| {
          assert front[g][t] == groups[g][t];
        }
      }
      if HitsGroups(c, front) {
        var g, t :| 0 <= g < |front| && 0 <= t < |front[g]| && OnToken(c, front[g][t]);
        assert groups[g][t] == front[g][t];
      }
    }
  }

  lemma {:induction false} EntryTermsMembers(c: Click, entries: seq<Entry>, x: string)
    ensures x in EntryTerms(c, entries) <==>
      exists k :: 0 <= k < |entries| && HitsGroups(c, entries[k].tokenGroups) && x in entries[k].locTerms
  {
    if entries != [] {
      var front, last := entries[..|entries| - 1], entries[|entries| - 1];
      EntryTermsMembers(c, front, x);
      GroupTermsMembers(c, last, last.tokenGroups, x);
      if exists k :: 0 <= k < |entries| && HitsGroups(c, entries[k].tokenGroups) && x in entries[k].locTerms {
        var k :| 0 <= k < |entries| && HitsGroups(c, entries[k].tokenGroups) && x in entries[k].locTerms;
        if k < |front| {
          assert front[k] == entries[k];
        }
      }
    }
  }

  /** A term is offered exactly when the guards pass and it is a target term
      of some entry with a matched token under the mouse. */
  lemma OfferedExactly(c: Click, entries: seq<Entry>, x: string)
    ensures x in Offered(c, entries) <==>
      PopupApplies(c) &&
      exists k :: 0 <= k < |entries| && HitsGroups(c, entries[k].tokenGroups) && x in entries[k].locTerms
  {
    DedupMembers(EntryTerms(c, entries));
    EntryTermsMembers(c, entries, x);
  }

  /** No term is offered twice. */
  lemma OfferedDistinct(c: Click, entries: seq<Entry>)
    ensures forall i, j :: 0 <= i < j < |Offered(c, entries)| ==> Offered(c, entries)[i] != Offered(c, entries)[j]
  {
    DedupDistinct(EntryTerms(c, entries));
  }
}
