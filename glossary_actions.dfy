/** The two menu actions of TransTipsPopup that rewrite the glossary file:
    "delete" (the action listener built in addItems) and "edit" (the
    window-closed handler of editGlossaryDialog). Each decides whether
    editLine is called and with which `search` and `replace`. */
module GlossaryActions {
  import opened GlossaryFile

  datatype Option<T> = None | Some(value: T)

  /** The arguments of one editLine call. */
  datatype EditCall = EditCall(search: string, replace: string)

  /** Java's String.trim drops leading and trailing characters whose code
      is at most U+0020. */
  predicate IsTrimmed(c: char) {
    c <= ' '
  }

  /** Leading trimmed characters removed: the longest suffix that does not start with one. */
  function TrimStart(s: string): (r: string)
    ensures |r| <= |s| && r == s[|s| - |r|..]
    ensures r == [] || !IsTrimmed(r[0])
    ensures forall k :: 0 <= k < |s| - |r| ==> IsTrimmed(s[k])
  {
    if s == [] || !IsTrimmed(s[0]) then s else TrimStart(s[1..])
  }

  /** Trailing trimmed characters removed: the longest prefix that does not end with one. */
  function TrimEnd(s: string): (r: string)
    ensures |r| <= |s| && r == s[..|r|]
    ensures r == [] || !IsTrimmed(r[|r| - 1])
    ensures forall k :: |r| <= k < |s| ==> IsTrimmed(s[k])
  {
    if s == [] || !IsTrimmed(s[|s| - 1]) then s else TrimEnd(s[..|s| - 1])
  }

  /** `r` is `s[i..j]`, and everything outside that slice is a trimmed character. */
  predicate TrimmedAt(s: string, r: string, i: int, j: int) {
    && 0 <= i <= j <= |s| && r == s[i..j]
    && (forall k :: 0 <= k < i ==> IsTrimmed(s[k]))
    && (forall k :: j <= k < |s| ==> IsTrimmed(s[k]))
  }

  /** Java's String.trim. */
  function Trim(s: string): (r: string)
    ensures r != [] ==> !IsTrimmed(r[0]) && !IsTrimmed(r[|r| - 1])
    ensures exists i, j :: TrimmedAt(s, r, i, j)
  {
    var t := TrimStart(s);
    TrimBothEnds(s, t, TrimEnd(t));
    TrimEnd(t)
  }

  /** Cutting trimmed characters off the front of `s` (giving `t`) and then
      off the back of `t` (giving `u`) leaves a slice of `s` with only trimmed
      characters outside it. */
  lemma TrimBothEnds(s: string, t: string, u: string)
    requires |u| <= |t| <= |s| && t == s[|s| - |t|..] && u == t[..|u|]
    requires forall k :: 0 <= k < |s| - |t| ==> IsTrimmed(s[k])
    requires forall k :: |u| <= k < |t| ==> IsTrimmed(t[k])
    ensures TrimmedAt(s, u, |s| - |t|, |s| - |t| + |u|)
  {
    var i := |s| - |t|;
    var j := i + |u|;
    assert u == s[i..j];
    forall k | j <= k < |s|
      ensures IsTrimmed(s[k])
    {
      assert s[k] == t[k - i];
    }
  }

  /** Trimming leaves nothing exactly when every character is trimmed. */
  lemma TrimEmptyIffBlank(s: string)
    ensures Trim(s) == [] <==> forall k :: 0 <= k < |s| ==> IsTrimmed(s[k])
  {
    var t := TrimStart(s);
    assert forall k :: |s| - |t| <= k < |s| ==> s[k] == t[k - (|s| - |t|)];
  }

  /** The key both actions search for: the entry's source text, a tab and one of its target terms. */
  function SearchKey(srcText: string, locTerm: string): (r: string) {
    srcText + "\t" + locTerm
  }

  /** The delete action: editLine with an empty replacement, only once the
      user confirmed the question. */
  function DeleteCall(srcText: string, locTerm: string, confirmed: bool): (c: Option<EditCall>)
    ensures c.Some? <==> confirmed
    ensures c.Some? ==> c.value.replace == [] && c.value.search == SearchKey(srcText, locTerm)
  {
    if confirmed then Some(EditCall(SearchKey(srcText, locTerm), "")) else None
  }

  /** The edit action. `srcText` and `locTerm` are the edited entry's source
      text and target term; `okPressed` says the dialog closed with OK;
      `srcField` and `locField` are the dialog's source and target texts after
      Unicode normalisation; `comment` is the comment text after normalisation,
      trimming and URL encoding. */
  function EditDialogCall(srcText: string, locTerm: string, okPressed: bool,
                          srcField: string, locField: string, comment: string): (c: Option<EditCall>)
    ensures c.Some? <==> okPressed && Trim(srcField) != [] && Trim(locField) != []
    ensures c.Some? ==> c.value.search == SearchKey(srcText, locTerm)
    ensures c.Some? ==> c.value.replace == Trim(srcField) + "\t" + Trim(locField) + "\t" + comment
  {
    var src := Trim(srcField);
    var loc := Trim(locField);
    if okPressed && src != [] && loc != [] then
      Some(EditCall(SearchKey(srcText, locTerm), src + "\t" + loc + "\t" + comment))
    else
      None
  }

  /** Confirming a delete removes from the file exactly the lines that start
      with the entry's key, and keeps every other line in order. */
  lemma {:induction false} DeleteRemovesMatchingLines(lines: seq<string>, srcText: string, locTerm: string)
    ensures DeleteCall(srcText, locTerm, true).value == EditCall(SearchKey(srcText, locTerm), [])
    ensures Rewrite(lines, SearchKey(srcText, locTerm), []) == Kept(lines, SearchKey(srcText, locTerm))
  {
    RewriteDeletes(lines, SearchKey(srcText, locTerm));
  }

  /** The edit path never deletes: its replacement line holds the trimmed,
      non-blank source and target fields, so every line starting with the
      key is replaced in place and the file keeps its length. */
  lemma {:induction false} EditNeverDeletes(lines: seq<string>, srcText: string, locTerm: string, okPressed: bool,
                         srcField: string, locField: string, comment: string)
    ensures var c := EditDialogCall(srcText, locTerm, okPressed, srcField, locField, comment);
      c.Some? ==>
        && c.value.replace != []
        && !IsTrimmed(c.value.replace[0])
        && StartsWith(c.value.replace, Trim(srcField) + "\t" + Trim(locField) + "\t")
        && |Rewrite(lines, c.value.search, c.value.replace)| == |lines|
        && forall i :: 0 <= i < |lines| ==>
             Rewrite(lines, c.value.search, c.value.replace)[i]
               == if StartsWith(lines[i], c.value.search) then c.value.replace else lines[i]
  {
    var c := EditDialogCall(srcText, locTerm, okPressed, srcField, locField, comment);
    if c.Some? {
      var src := Trim(srcField);
      var prefix := src + "\t" + Trim(locField) + "\t";
      assert c.value.replace == prefix + comment;
      assert c.value.replace[0] == src[0];
      RewriteReplaces(lines, c.value.search, c.value.replace);
    }
  }
}
