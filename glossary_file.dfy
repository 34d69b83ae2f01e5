/** The line-rewrite rule that TransTipsPopup.editLine applies to a glossary
    file. The file is a sequence of lines (line terminators are not part of
    the model). A line that starts with `search` is replaced by `replace`, or
    dropped when `replace` is empty; every other line is copied unchanged. */
module GlossaryFile {

  /** Java's String.startsWith: `prefix` is a prefix of `line`
      (so the empty prefix matches every line). */
  predicate StartsWith(line: string, prefix: string) {
    prefix <= line
  }

  /** The lines written for one line read: the line itself, `replace`, or nothing. */
  function RewriteLine(line: string, search: string, replace: string): (r: seq<string>) {
    if !StartsWith(line, search) then [line]
    else if replace != [] then [replace]
    else []
  }

  /** The whole output file for the input file `lines`. */
  function Rewrite(lines: seq<string>, search: string, replace: string): (r: seq<string>)
    ensures |r| <= |lines|
    ensures replace != [] ==> |r| == |lines|
  {
    if lines == [] then []
    else Rewrite(lines[..|lines| - 1], search, replace) + RewriteLine(lines[|lines| - 1], search, replace)
  }

  /** Reference definition: the input with every line that starts with `search` removed. */
  function Kept(lines: seq<string>, search: string): (r: seq<string>)
    ensures forall l :: l in r ==> l in lines && !StartsWith(l, search)
    ensures IsSubsequence(r, lines)
    ensures forall i :: 0 <= i < |lines| && !StartsWith(lines[i], search) ==>
      multiset(r)[lines[i]] == multiset(lines)[lines[i]]
  {
    if lines == [] then []
    else
      var front, last := lines[..|lines| - 1], lines[|lines| - 1];
      assert lines == front + [last];
      var k := Kept(front, search);
      if StartsWith(last, search) then
        SubsequenceExtend(k, front, last);
        assert forall i :: 0 <= i < |front| && !StartsWith(front[i], search) ==> front[i] != last;
        k
      else
        assert (k + [last])[..|k|] == k;
        k + [last]
  }

  /** `a` occurs in `b` in the same order, possibly with other elements in between. */
  predicate IsSubsequence(a: seq<string>, b: seq<string>)
    decreases |b|
  {
    a == [] ||
    (b != [] &&
     if a[|a| - 1] == b[|b| - 1] then IsSubsequence(a[..|a| - 1], b[..|b| - 1])
     else IsSubsequence(a, b[..|b| - 1]))
  }

  /** The loop of editLine: read each line in turn and append what is written for it. */
  method EditLines(lines: seq<string>, search: string, replace: string) returns (written: seq<string>)
    ensures written == Rewrite(lines, search, replace)
  {
    written := [];
    var i := 0;
    while i < |lines|
      invariant 0 <= i <= |lines|
      invariant written == Rewrite(lines[..i], search, replace)
    {
      var line := lines[i];
      assert lines[..i + 1][..i] == lines[..i];
      if !StartsWith(line, search) {
        written := written + [line];
      } else {
        // delete mode writes nothing for a matching line
        if replace != [] {
          written := written + [replace];
        }
      }
      i := i + 1;
    }
    assert lines[..i] == lines;
  }

  /** Delete mode: with an empty `replace`, the output is exactly the input
      without the lines that start with `search`. */
  lemma {:induction false} RewriteDeletes(lines: seq<string>, search: string)
    ensures Rewrite(lines, search, []) == Kept(lines, search)
  {
    if lines != [] {
      RewriteDeletes(lines[..|lines| - 1], search);
    }
  }

  /** Replace mode: with a non-empty `replace`, every line that starts with
      `search` becomes `replace` at the same position and every other line stays. */
  lemma {:induction false} RewriteReplaces(lines: seq<string>, search: string, replace: string)
    requires replace != []
    ensures |Rewrite(lines, search, replace)| == |lines|
    ensures forall i :: 0 <= i < |lines| ==>
      Rewrite(lines, search, replace)[i] == if StartsWith(lines[i], search) then replace else lines[i]
  {
    if lines != [] {
      var front := lines[..|lines| - 1];
      RewriteReplaces(front, search, replace);
      forall i | 0 <= i < |front|
        ensures lines[i] == front[i]
      {
      }
    }
  }

  lemma {:induction false} SubsequenceExtend(a: seq<string>, b: seq<string>, x: string)
    requires IsSubsequence(a, b)
    ensures IsSubsequence(a, b + [x])
    decreases |a| + |b|, 1
  {
    assert (b + [x])[..|b|] == b;
    if a != [] && a[|a| - 1] == x {
      SubsequenceDropLast(a, b);
    }
  }

  lemma {:induction false} SubsequenceDropLast(a: seq<string>, b: seq<string>)
    requires a != [] && IsSubsequence(a, b)
    ensures IsSubsequence(a[..|a| - 1], b)
    decreases |a| + |b|, 0
  {
    var b' := b[..|b| - 1];
    assert b == b' + [b[|b| - 1]];
    if a[|a| - 1] == b[|b| - 1] {
      SubsequenceExtend(a[..|a| - 1], b', b[|b| - 1]);
    } else {
      SubsequenceDropLast(a, b');
      SubsequenceExtend(a[..|a| - 1], b', b[|b| - 1]);
    }
  }

  /** Every line that does not start with `search` is written unchanged, and
      such lines keep their relative order, whatever `replace` is. */
  lemma {:induction false} UnmatchedKeptInOrder(lines: seq<string>, search: string, replace: string)
    ensures IsSubsequence(Kept(lines, search), Rewrite(lines, search, replace))
  {
    if lines != [] {
      var front, last := lines[..|lines| - 1], lines[|lines| - 1];
      var k, r := Kept(front, search), Rewrite(front, search, replace);
      UnmatchedKeptInOrder(front, search, replace);
      if !StartsWith(last, search) {
        assert (k + [last])[..|k|] == k;
        assert (r + [last])[..|r|] == r;
      } else if replace != [] {
        SubsequenceExtend(k, r, replace);
        assert Rewrite(lines, search, replace) == r + [replace];
        assert Kept(lines, search) == k;
      } else {
        assert Rewrite(lines, search, replace) == r + [] == r;
      }
    }
  }

  /** Rewriting works line by line, so it distributes over concatenation. */
  lemma {:induction false} RewriteAppend(a: seq<string>, b: seq<string>, search: string, replace: string)
    ensures Rewrite(a + b, search, replace) == Rewrite(a, search, replace) + Rewrite(b, search, replace)
  {
    if b == [] {
      assert a + b == a;
    } else {
      var b' := b[..|b| - 1];
      assert (a + b)[..|a + b| - 1] == a + b';
      RewriteAppend(a, b', search, replace);
    }
  }

  /** Rewriting the output again with the same arguments changes nothing:
      matching lines are either gone or already equal to `replace`. */
  lemma {:induction false} RewriteIdempotent(lines: seq<string>, search: string, replace: string)
    ensures Rewrite(Rewrite(lines, search, replace), search, replace) == Rewrite(lines, search, replace)
  {
    if lines != [] {
      var front, last := lines[..|lines| - 1], lines[|lines| - 1];
      var once := RewriteLine(last, search, replace);
      RewriteIdempotent(front, search, replace);
      RewriteAppend(Rewrite(front, search, replace), once, search, replace);
      if once != [] {
        assert once == [once[0]];
        assert |[once[0]][..0]| == 0;
      }
    }
  }

  // The key `srcText + '\t' + locTerm` is matched as a plain prefix, so it
  // also matches the line of a target term that merely begins with `locTerm`.

  /** As written: deleting the entry (src, loc) also deletes the line of the
      entry (src, loc + more), a different target term. */
  lemma DeleteAlsoHitsLongerTerm(src: string, loc: string, more: string, rest: string)
    requires more != [] && '\t' !in more
    ensures Rewrite([src + "\t" + loc + more + rest], src + "\t" + loc, []) == []
  {
    var line := src + "\t" + loc + more + rest;
    assert line == (src + "\t" + loc) + (more + rest);
    assert |[line][..0]| == 0;
  }

  /** Corrected match: the key must be followed by the end of the line or by
      the tab that ends the target-term field. */
  predicate StartsWithEntry(line: string, search: string) {
    StartsWith(line, search) && (|line| == |search| || line[|search|] == '\t')
  }

  /** The rewrite with the corrected match. */
  function RewriteEntry(lines: seq<string>, search: string, replace: string): (r: seq<string>)
    ensures |r| <= |lines|
    ensures replace != [] ==> |r| == |lines|
  {
    if lines == [] then []
    else
      var last := lines[|lines| - 1];
      RewriteEntry(lines[..|lines| - 1], search, replace) +
      (if !StartsWithEntry(last, search) then [last] else if replace != [] then [replace] else [])
  }

  /** Reference definition for the corrected match: the input with every line
      that matches the entry key removed. */
  function KeptEntries(lines: seq<string>, search: string): (r: seq<string>)
    ensures forall l :: l in r ==> l in lines && !StartsWithEntry(l, search)
    ensures IsSubsequence(r, lines)
    ensures forall i :: 0 <= i < |lines| && !StartsWithEntry(lines[i], search) ==>
      multiset(r)[lines[i]] == multiset(lines)[lines[i]]
  {
    if lines == [] then []
    else
      var front, last := lines[..|lines| - 1], lines[|lines| - 1];
      assert lines == front + [last];
      var k := KeptEntries(front, search);
      if StartsWithEntry(last, search) then
        SubsequenceExtend(k, front, last);
        assert forall i :: 0 <= i < |front| && !StartsWithEntry(front[i], search) ==> front[i] != last;
        k
      else
        assert (k + [last])[..|k|] == k;
        k + [last]
  }

  /** Delete mode with the corrected match: the output is exactly the input
      without the lines of the entry. */
  lemma {:induction false} RewriteEntryDeletes(lines: seq<string>, search: string)
    ensures RewriteEntry(lines, search, []) == KeptEntries(lines, search)
  {
    if lines != [] {
      RewriteEntryDeletes(lines[..|lines| - 1], search);
    }
  }

  /** Replace mode with the corrected match: every line of the entry becomes
      `replace` at the same position and every other line stays. */
  lemma {:induction false} RewriteEntryReplaces(lines: seq<string>, search: string, replace: string)
    requires replace != []
    ensures |RewriteEntry(lines, search, replace)| == |lines|
    ensures forall i :: 0 <= i < |lines| ==>
      RewriteEntry(lines, search, replace)[i] == if StartsWithEntry(lines[i], search) then replace else lines[i]
  {
    if lines != [] {
      var front := lines[..|lines| - 1];
      RewriteEntryReplaces(front, search, replace);
      forall i | 0 <= i < |front|
        ensures lines[i] == front[i]
      {
      }
    }
  }

  /** Two tab-free leading fields: if one "field, tab, text" is a prefix of
      another, the fields are equal. */
  lemma SameLeadingField(x: string, y: string, p: string, q: string)
    requires '\t' !in x && '\t' !in p
    requires x + "\t" + y <= p + "\t" + q
    ensures x == p && y <= q
  {
    var a, b := x + "\t" + y, p + "\t" + q;
    assert forall i :: 0 <= i < |x| ==> a[i] == x[i] == b[i];
    assert forall i :: 0 <= i < |p| ==> b[i] == p[i];
    assert a[|x|] == '\t' && b[|p|] == '\t';
    assert |x| == |p|;
    assert x == a[..|x|] == b[..|x|] == p;
    assert y == a[|x| + 1..] && q == b[|x| + 1..];
  }

  /** A tab-free term that is a prefix of another tab-free term followed by
      the end of the line or a tab, and that is itself followed there by the
      end or a tab, is that term. */
  lemma SameTerm(loc: string, loc2: string, rest: string)
    requires '\t' !in loc && '\t' !in loc2
    requires rest == [] || rest[0] == '\t'
    requires loc <= loc2 + rest
    requires |loc2 + rest| == |loc| || (loc2 + rest)[|loc|] == '\t'
    ensures loc == loc2
  {
    var t := loc2 + rest;
    assert forall i :: 0 <= i < |loc2| ==> t[i] == loc2[i];
    assert forall i :: 0 <= i < |loc| ==> t[i] == loc[i];
    assert |loc2| < |t| ==> t[|loc2|] == '\t';
    assert |loc| == |loc2|;
    assert loc == t[..|loc|] == loc2;
  }

  /** Intended property of the corrected match: for tab-free fields, the key
      (src, loc) matches a line exactly when the line's first two fields are
      src and loc. */
  lemma EntryKeyExact(src: string, loc: string, src2: string, loc2: string, rest: string)
    requires '\t' !in src && '\t' !in loc && '\t' !in src2 && '\t' !in loc2
    requires rest == [] || rest[0] == '\t'
    ensures StartsWithEntry(src2 + "\t" + loc2 + rest, src + "\t" + loc) <==> src2 == src && loc2 == loc
  {
    var line, key := src2 + "\t" + loc2 + rest, src + "\t" + loc;
    assert line == src2 + "\t" + (loc2 + rest);
    if StartsWithEntry(line, key) {
      SameLeadingField(src, loc, src2, loc2 + rest);
      assert |line| == |key| || line[|key|] == (loc2 + rest)[|loc|];
      SameTerm(loc, loc2, rest);
    }
  }

  /** Corrected behaviour on the same input: the line of the longer term survives. */
  lemma DeleteEntryKeepsLongerTerm(src: string, loc: string, more: string, rest: string)
    requires more != [] && more[0] != '\t'
    ensures RewriteEntry([src + "\t" + loc + more + rest], src + "\t" + loc, []) == [src + "\t" + loc + more + rest]
  {
    var line: string := src + "\t" + loc + more + rest;
    var key: string := src + "\t" + loc;
    assert line == key + (more + rest);
    assert line[|key|] == more[0];
    assert |[line][..0]| == 0;
  }
}
