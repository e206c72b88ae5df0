/** What a search of `user/bin/ed.c` finds for a typed word: the first place in the line where it stands. */
module EdWords {
  import opened Ed
  import opened EdPatterns
  import opened EdSyntax
  import opened Wrappers

  // Characters that stand for themselves, and the dot.
  predicate IsWord(w: string, eof: char) {
    w != [] && forall i :: 0 <= i < |w| ==> w[i] != eof && w[i] !in {'\\', '*', '[', '$', '^', '\n'}
  }

  // A dot stands for any character.
  predicate Fits(w: string, t: string) {
    |w| == |t| && forall i :: 0 <= i < |w| ==> w[i] == '.' || w[i] == t[i]
  }

  predicate FitsAt(w: string, anchored: bool, line: string, s: nat) {
    s + |w| <= |line| && (anchored ==> s == 0) && Fits(w, line[s..s + |w|])
  }

  // The bytes that a word takes up in expbuf.
  function WordSize(w: string): nat {
    if w == [] then 0 else WordSize(w[..|w| - 1]) + if w[|w| - 1] == '.' then 1 else 2
  }

  function WordElem(c: char): Elem {
    Elem(if c == '.' then Any else Char(c), false)
  }

  function WordPattern(w: string): (ps: Pattern)
    ensures |ps| == |w| && forall i :: 0 <= i < |w| ==> ps[i] == WordElem(w[i])
  {
    seq(|w|, i requires 0 <= i < |w| => WordElem(w[i]))
  }

  lemma {:induction false} ReadWord(done: string, w: string, eof: char, after: string)
    requires w != [] ==> IsWord(w, eof)
    ensures ParseFrom(w + [eof] + after, eof, WordPattern(done)) == Some((WordPattern(done + w), after))
    decreases |w|
  {
    hide ReadNext, WordPattern;
    var text := w + [eof] + after;
    if w == [] {
      assert text[0] == eof && text[1..] == after && done + w == done;
      ReadDelimiter(text, eof, WordPattern(done));
    } else {
      assert text[0] == w[0] && text[1..] == w[1..] + [eof] + after;
      ReadPlain(text, eof, WordPattern(done));
      assert WordPattern(done) + [WordElem(w[0])] == WordPattern(done + [w[0]]);
      ReadWord(done + [w[0]], w[1..], eof, after);
      assert done + [w[0]] + w[1..] == done + w;
    }
  }

  lemma ParseWord(anchored: bool, w: string, eof: char, after: string)
    requires IsWord(w, eof)
    ensures Parse((if anchored then "^" else "") + (w + [eof] + after), eof) == Some(Parsed(anchored, WordPattern(w), after))
  {
    hide ParseFrom, WordPattern;
    var t := w + [eof] + after;
    var text := (if anchored then "^" else "") + t;
    assert t[0] == w[0];
    assert if anchored then text[0] == '^' && text[1..] == t else text == t;
    ReadWord("", w, eof, after);
    assert "" + w == w && WordPattern("") == [];
  }

  lemma {:induction false} WordEncode(w: string)
    ensures |Encode(WordPattern(w))| == WordSize(w)
    decreases |w|
  {
    hide WordPattern;
    if w == [] {
      assert WordPattern(w) == [];
    } else {
      var v, c := w[..|w| - 1], w[|w| - 1];
      WordEncode(v);
      assert WordPattern(w) == WordPattern(v) + [WordElem(c)];
      EncodeAppend(WordPattern(v), WordElem(c));
    }
  }

  /** The language of a word: the strings that it fits. */
  lemma {:induction false} WordIn(w: string, t: string)
    ensures In(WordPattern(w), t) <==> Fits(w, t)
    decreases |w|
  {
    hide WordPattern;
    var ps := WordPattern(w);
    if w != [] {
      assert ps[1..] == WordPattern(w[1..]);
      if t != [] {
        WordIn(w[1..], t[1..]);
        assert t == [t[0]] + t[1..] && w == [w[0]] + w[1..];
        assert t[..1] == [t[0]];
      }
    }
  }

  /** A typed word, with ^ in front or not: it is accepted when its code fits into the buffer, and then the search
      finds the first place in the line where it stands, if there is one. */
  method SearchWord(ed: Editor, anchored: bool, w: string, eof: char, after: string, line: string) returns (r: Status, found: bool)
    requires ed.Buffers() && ed.HasCompiled() && IsWord(w, eof) && '\n' in after && eof != '^'
    requires IsText(w + [eof] + after) && IsText(line)
    modifies ed, ed.expbuf, ed.braslist, ed.braelist
    ensures r.Accepted? <==> WordSize(w) < ESIZE
    ensures found <==> r.Accepted? && exists s: nat :: FitsAt(w, anchored, line, s)
    ensures found ==> FitsAt(w, anchored, line, ed.loc1) && ed.loc2 == ed.loc1 + |w|
    ensures found ==> forall s: nat :: s < ed.loc1 ==> !FitsAt(w, anchored, line, s)
  {
    hide Encode, Parse, In, WordPattern, Fits, WordSize;
    var text := (if anchored then "^" else "") + (w + [eof] + after);
    TypedWord(anchored, w, eof, after, text);
    ParseWord(anchored, w, eof, after);
    WordEncode(w);
    ghost var path;
    r, found, path := ed.Search(text, eof, line);
    forall s: nat, q: nat
      ensures IsMatch(WordPattern(w), line, anchored, s, q) <==> q == s + |w| && FitsAt(w, anchored, line, s)
    {
      WordMatch(anchored, w, line, s, q);
    }
    forall s: nat | FitsAt(w, anchored, line, s) ensures r.Accepted? ==> found && ed.loc1 <= s {
      assert IsMatch(WordPattern(w), line, anchored, s, s + |w|);
    }
  }

  lemma TypedWord(anchored: bool, w: string, eof: char, after: string, text: string)
    requires IsWord(w, eof) && '\n' in after && eof != '^' && IsText(w + [eof] + after)
    requires text == (if anchored then "^" else "") + (w + [eof] + after)
    ensures IsText(text) && '\n' in text && text[0] != eof
  {
    var t := w + [eof] + after;
    assert t[0] == w[0];
    assert forall i :: 0 <= i < |text| ==> text[i] == '^' || text[i] in t;
    assert '\n' in t;
  }

  lemma WordMatch(anchored: bool, w: string, line: string, s: nat, q: nat)
    ensures IsMatch(WordPattern(w), line, anchored, s, q) <==> q == s + |w| && FitsAt(w, anchored, line, s)
  {
    hide In;
    if s <= q <= |line| {
      WordIn(w, line[s..q]);
    }
    assert !EndsLine(WordPattern(w));
  }

  // ---------------------------------------------------------------------------------------------
  // One set, starred or not

  // A set as it is typed: at least one character, not ] but as the first one.
  predicate IsSet(set_: string, negated: bool) {
    && set_ != [] && IsText(set_) && '\n' !in set_ && ']' !in set_[1..] && (negated || set_[0] != '^')
  }

  function SetText(set_: string, negated: bool, starred: bool): string {
    (if negated then "[^" else "[") + set_ + "]" + if starred then "*" else ""
  }

  lemma ParseTypedSet(set_: string, negated: bool, starred: bool, eof: char, after: string)
    requires IsSet(set_, negated) && Delimiter(eof)
    ensures Parse(SetText(set_, negated, starred) + [eof] + after, eof)
      == Some(Parsed(false, [Elem(Class(set_, negated), starred)], after))
    ensures |Encode([Elem(Class(set_, negated), starred)])| == |set_| + 2
  {
    hide Parse, Encode;
    var ps := [Elem(Class(set_, negated), starred)];
    SetWellFormed(ps);
    ParseShow(false, ps, after, eof);
    assert ps[1..] == [] && Show(ps) == ShowElem(ps[0]) + "" == SetText(set_, negated, starred);
    assert "" + Show(ps) == Show(ps);
    assert [] + ps == ps;
    EncodeAppend([], ps[0]);
    EncodeNothing();
  }

  lemma EncodeNothing()
    ensures Encode([]) == []
  {
  }

  lemma SetWellFormed(ps: Pattern)
    requires |ps| == 1 && ps[0].item.Class? && IsSet(ps[0].item.set_, ps[0].item.negated)
    ensures WellFormed(ps)
  {
    assert ps[..0] == [];
  }

  lemma OneIn(e: Elem, t: string)
    ensures In([e], t) <==> ElemIn(e, t)
  {
    assert [e][1..] == [];
    assert t[..|t|] == t && t[|t|..] == [];
    if In([e], t) {
      var k :| 0 <= k <= |t| && ElemIn(e, t[..k]) && In([e][1..], t[k..]);
      assert k == |t|;
    }
  }

  predicate Chosen(set_: string, negated: bool, c: char) {
    if negated then c !in set_ else c in set_
  }

  lemma SetMatch(set_: string, negated: bool, starred: bool, line: string, s: nat, q: nat)
    ensures IsMatch([Elem(Class(set_, negated), starred)], line, false, s, q) <==>
      s <= q <= |line| && (starred || q == s + 1) && forall i :: s <= i < q ==> Chosen(set_, negated, line[i])
  {
    hide In;
    var e := Elem(Class(set_, negated), starred);
    assert !EndsLine([e]);
    if s <= q <= |line| {
      OneIn(e, line[s..q]);
      assert forall i :: s <= i < q ==> line[i] == line[s..q][i - s];
    }
  }

  /** A typed set finds the first character that is in it, or that is not for a negated one. With a star it always
      matches, at the start of the line, as many such characters as stand there. */
  method SearchSet(ed: Editor, set_: string, negated: bool, starred: bool, eof: char, after: string, line: string)
    returns (r: Status, found: bool)
    requires ed.Buffers() && ed.HasCompiled() && IsSet(set_, negated) && Delimiter(eof) && '\n' in after
    requires IsText([eof] + after) && IsText(line)
    modifies ed, ed.expbuf, ed.braslist, ed.braelist
    ensures r.Accepted? <==> |set_| + 2 < ESIZE
    ensures found <==> r.Accepted? && (starred || exists s :: 0 <= s < |line| && Chosen(set_, negated, line[s]))
    ensures found && !starred ==>
      && ed.loc1 < |line| && Chosen(set_, negated, line[ed.loc1]) && ed.loc2 == ed.loc1 + 1
      && forall s :: 0 <= s < ed.loc1 ==> !Chosen(set_, negated, line[s])
    ensures found && starred ==>
      && ed.loc1 == 0 && ed.loc2 <= |line| && (forall i :: 0 <= i < ed.loc2 ==> Chosen(set_, negated, line[i]))
      && (ed.loc2 < |line| ==> !Chosen(set_, negated, line[ed.loc2]))
  {
    hide Encode, Parse, In, Best, Groups, Chosen, IsMatch;
    var text := SetText(set_, negated, starred) + [eof] + after;
    TypedSet(set_, negated, starred, eof, after, text);
    ParseTypedSet(set_, negated, starred, eof, after);
    ghost var ps := [Elem(Class(set_, negated), starred)];
    ghost var path;
    r, found, path := ed.Search(text, eof, line);
    forall s: nat, q: nat
      ensures IsMatch(ps, line, false, s, q) <==>
        s <= q <= |line| && (starred || q == s + 1) && forall i :: s <= i < q ==> Chosen(set_, negated, line[i])
    {
      SetMatch(set_, negated, starred, line, s, q);
    }
    forall s: nat | s < |line| && Chosen(set_, negated, line[s]) ensures IsMatch(ps, line, false, s, s + 1) {
    }
    if starred {
      assert IsMatch(ps, line, false, 0, 0);
    }
    if found {
      assert IsMatch(ps, line, false, ed.loc1, ed.loc2);
      if !starred {
        assert Chosen(set_, negated, line[ed.loc1]);
      } else if ed.loc2 < |line| {
        Longest(ps[0], line, ed.loc1, path);
        AcceptsChosen(set_, negated, line[ed.loc2]);
      }
    }
  }

  lemma AcceptsChosen(set_: string, negated: bool, c: char)
    ensures Accepts(Class(set_, negated), c) <==> Chosen(set_, negated, c)
  {
  }

  lemma TypedSet(set_: string, negated: bool, starred: bool, eof: char, after: string, text: string)
    requires IsSet(set_, negated) && '\n' in after && IsText([eof] + after) && Delimiter(eof)
    requires text == SetText(set_, negated, starred) + [eof] + after
    ensures IsText(text) && '\n' in text && text[0] != eof
  {
    var t := [eof] + after;
    assert text == SetText(set_, negated, starred) + t;
    assert '\n' in t;
    assert IsText(SetText(set_, negated, starred));
    assert text[0] == '[';
  }

  // The greedy path of a single star goes as far as it can.
  lemma Longest(e: Elem, line: string, p: nat, path: Path)
    requires e.starred && Best([e], line, -1, p, path) && path[1] < |line|
    ensures !Accepts(e.item, line[path[1]])
  {
    if Accepts(e.item, line[path[1]]) {
      var longer := [p, path[1] + 1];
      assert Step(e, line, -1, path[0], path[1]);
      assert IsPath([e], line, -1, p, longer);
      NotLess(longer, path);
      assert false;
    }
  }

  lemma NotLess(a: Path, b: Path)
    requires |a| == |b| == 2 && a[0] == b[0] && a[1] > b[1]
    ensures a != b && !LexLess(a, b)
  {
  }
}
