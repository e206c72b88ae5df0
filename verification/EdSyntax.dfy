/** The typed form of the regular expressions of `user/bin/ed.c`: how a delimited pattern is read, how a
    pattern is written down, and that the two undo each other. */
module EdSyntax {
  import opened EdPatterns
  import opened Wrappers

  datatype Parsed = Parsed(anchored: bool, pattern: Pattern, rest: string)

  // ---------------------------------------------------------------------------------------------
  // Groups

  // The number the next group gets.
  function NextGroup(ps: Pattern): nat {
    if ps == [] then 0 else NextGroup(ps[..|ps| - 1]) + if ps[|ps| - 1].item.Open? then 1 else 0
  }

  // The groups that are open after ps, the innermost last.
  function OpenGroups(ps: Pattern): seq<nat> {
    if ps == [] then []
    else
      var open, last := OpenGroups(ps[..|ps| - 1]), ps[|ps| - 1].item;
      if last.Open? then open + [last.n]
      else if last.Close? && open != [] then open[..|open| - 1]
      else open
  }

  // Groups are numbered from the left, and closed from the inside.
  ghost predicate Nested(ps: Pattern) {
    ps == [] ||
    (var before, last := ps[..|ps| - 1], ps[|ps| - 1].item;
     Nested(before) && match last
       case Open(n) => n == NextGroup(before) < NBRA
       case Close(n) => OpenGroups(before) != [] && n == Innermost(before)
       case _ => true)
  }

  // A set as it can be typed: ] is its first character or absent, and only a negated set starts with ^.
  predicate SetOk(item: Item) {
    item.Class? ==> item.set_ != [] && ']' !in item.set_[1..] && (item.negated || item.set_[0] != '^')
  }

  ghost predicate WellFormed(ps: Pattern) {
    && Nested(ps)
    && forall i :: 0 <= i < |ps| ==> ElemOk(ps[i]) && SetOk(ps[i].item) && (ps[i].item.Eol? ==> i == |ps| - 1)
  }

  // ---------------------------------------------------------------------------------------------
  // Reading

  // The characters of a set, after those in set_: at least one, up to the next ].
  function ParseSet(text: string, set_: string): (r: Option<(string, string)>)
    ensures r.Some? ==> |r.value.0| > |set_| && r.value.0[..|set_|] == set_ && |r.value.1| < |text|
    decreases |text|
  {
    if text == [] || text[0] == '\n' then None
    else if |text| > 1 && text[1] == ']' then Some((set_ + [text[0]], text[2..]))
    else ParseSet(text[1..], set_ + [text[0]])
  }

  datatype Next = Failed | Finished(rest: string) | Item(rest: string, pattern: Pattern)

  // One step of reading, after the pattern ps: the delimiter, an item, or a star for the last item.
  function ReadNext(text: string, eof: char, ps: Pattern): (r: Next)
    ensures r.Item? ==> |r.rest| < |text|
  {
    if text == [] then Failed
    else
      var c := text[0];
      if c == eof then Finished(text[1..])
      else if c == '\\' then
        if |text| == 1 then Failed
        else if text[1] == '(' then
          if NextGroup(ps) >= NBRA then Failed
          else Item(text[2..], ps + [Elem(Open(NextGroup(ps)), false)])
        else if text[1] == ')' then
          if OpenGroups(ps) == [] then Failed
          else Item(text[2..], ps + [Elem(Close(Innermost(ps)), false)])
        else if text[1] == '\n' then Failed
        else Item(text[2..], ps + [Elem(Char(text[1]), false)])
      else if c == '\n' then Failed
      else if c == '.' then Item(text[1..], ps + [Elem(Any, false)])
      else if c == '*' then
        if ps == [] || !ps[|ps| - 1].item.IsSingle() then Failed
        else Item(text[1..], ps[..|ps| - 1] + [Elem(ps[|ps| - 1].item, true)])
      else if c == '$' && |text| > 1 && text[1] == eof then Item(text[1..], ps + [Elem(Eol, false)])
      else if c == '[' then
        var negated := |text| > 1 && text[1] == '^';
        var r := ParseSet(if negated then text[2..] else text[1..], []);
        if r == None then Failed
        else Item(r.value.1, ps + [Elem(Class(r.value.0, negated), false)])
      else Item(text[1..], ps + [Elem(Char(c), false)])
  }

  // The group that a closing mark after ps closes.
  function Innermost(ps: Pattern): nat
    requires OpenGroups(ps) != []
  {
    OpenGroups(ps)[|OpenGroups(ps)| - 1]
  }

  // The pattern that starts with ps and goes on with text up to the delimiter.
  function ParseFrom(text: string, eof: char, ps: Pattern): Option<(Pattern, string)>
    decreases |text|
  {
    match ReadNext(text, eof, ps)
    case Failed => None
    case Finished(rest) => Some((ps, rest))
    case Item(rest, ps') => ParseFrom(rest, eof, ps')
  }

  function Parse(text: string, eof: char): Option<Parsed> {
    var anchored := text != [] && text[0] == '^';
    var t := if anchored then text[1..] else text;
    if t != [] && t[0] == '*' then None
    else
      var r := ParseFrom(t, eof, []);
      if r == None then None else Some(Parsed(anchored, r.value.0, r.value.1))
  }

  // ---------------------------------------------------------------------------------------------
  // Writing

  function ShowItem(item: Item): string {
    match item
    case Char(c) => if c == '(' || c == ')' then [c] else ['\\', c]
    case Any => "."
    case Class(s, negated) => (if negated then "[^" else "[") + s + "]"
    case Eol => "$"
    case Open(_) => "\\("
    case Close(_) => "\\)"
  }

  function ShowElem(e: Elem): string {
    ShowItem(e.item) + if e.starred then "*" else ""
  }

  function Show(ps: Pattern): string {
    if ps == [] then "" else ShowElem(ps[0]) + Show(ps[1..])
  }

  function ShowAll(anchored: bool, ps: Pattern): string {
    (if anchored then "^" else "") + Show(ps)
  }

  // A delimiter that means nothing in a pattern, such as / or ?.
  predicate Delimiter(eof: char) {
    && eof != '\\' && eof != '.' && eof != '[' && eof != '*' && eof != '^' && eof != '$'
    && eof != '(' && eof != ')' && eof != '\n'
  }

  // ---------------------------------------------------------------------------------------------
  // What was written is read back

  lemma {:induction false} ParseSetBack(s: string, done: string, rest: string)
    requires s != [] && '\n' !in s && ']' !in s[1..]
    ensures ParseSet(s + "]" + rest, done) == Some((done + s, rest))
    decreases |s|
  {
    var text := s + "]" + rest;
    assert text[0] == s[0];
    if |s| == 1 {
      assert text[1] == ']' && text[2..] == rest && s == [s[0]];
    } else {
      assert text[1] == s[1] == s[1..][0];
      assert text[1..] == s[1..] + "]" + rest;
      assert s[1..][1..] == s[2..];
      forall i | 2 <= i < |s| ensures s[i] != ']' {
        assert s[1..][i - 1] == s[i];
      }
      ParseSetBack(s[1..], done + [s[0]], rest);
      assert done + [s[0]] + s[1..] == done + s;
    }
  }

  lemma NestedLast(done: Pattern, e: Elem)
    requires Nested(done + [e])
    ensures e.item.Open? ==> e.item.n == NextGroup(done) < NBRA
    ensures e.item.Close? ==> OpenGroups(done) != [] && e.item.n == Innermost(done)
  {
    assert (done + [e])[..|done|] == done && (done + [e])[|done|] == e;
  }

  // Reading one item.
  lemma ParseItemBack(e: Elem, done: Pattern, t: string, eof: char)
    requires Delimiter(eof) && ElemOk(e) && SetOk(e.item) && Nested(done + [e])
    requires e.item.Eol? ==> t != [] && t[0] == eof
    ensures ParseFrom(ShowItem(e.item) + t, eof, done) == ParseFrom(t, eof, done + [Elem(e.item, false)])
  {
    hide Nested, NextGroup, OpenGroups, ParseSet;
    var text := ShowItem(e.item) + t;
    match e.item {
      case Class(_, _) => ParseClassBack(e, done, t, eof);
      case _ =>
        NestedLast(done, e);
        assert text[|ShowItem(e.item)|..] == t;
    }
  }

  // One step of the reader, at a set and at a star.
  lemma ParseClassStep(negated: bool, s: string, t: string, eof: char, ps: Pattern)
    requires eof != '[' && (negated || (s != [] && s[0] != '^')) && ParseSet(s + "]" + t, []) == Some((s, t))
    ensures ParseFrom((if negated then "[^" else "[") + (s + "]" + t), eof, ps)
      == ParseFrom(t, eof, ps + [Elem(Class(s, negated), false)])
  {
    hide ParseSet, NextGroup, OpenGroups;
    var body := s + "]" + t;
    var text := (if negated then "[^" else "[") + body;
    assert text[0] == '[' && (if negated then text[2..] else text[1..]) == body;
    assert negated <==> text[1] == '^';
  }

  lemma ParseStarStep(t: string, eof: char, ps: Pattern)
    requires eof != '*' && ps != [] && ps[|ps| - 1].item.IsSingle()
    ensures ParseFrom("*" + t, eof, ps) == ParseFrom(t, eof, ps[..|ps| - 1] + [Elem(ps[|ps| - 1].item, true)])
  {
    hide ParseSet, NextGroup, OpenGroups;
    assert ("*" + t)[1..] == t;
  }

  lemma ParseClassBack(e: Elem, done: Pattern, t: string, eof: char)
    requires Delimiter(eof) && ElemOk(e) && SetOk(e.item) && e.item.Class?
    ensures ParseFrom(ShowItem(e.item) + t, eof, done) == ParseFrom(t, eof, done + [Elem(e.item, false)])
  {
    hide ParseFrom;
    var s := e.item.set_;
    ParseSetBack(s, [], t);
    assert [] + s == s;
    ParseClassStep(e.item.negated, s, t, eof, done);
    assert ShowItem(e.item) + t == (if e.item.negated then "[^" else "[") + (s + "]" + t);
  }

  lemma ParseElemBack(e: Elem, done: Pattern, t: string, eof: char)
    requires Delimiter(eof) && ElemOk(e) && SetOk(e.item) && Nested(done + [e])
    requires e.item.Eol? ==> t != [] && t[0] == eof
    ensures ParseFrom(ShowElem(e) + t, eof, done) == ParseFrom(t, eof, done + [e])
  {
    hide ParseFrom, Nested, ShowItem;
    if e.starred {
      assert ShowElem(e) + t == ShowItem(e.item) + ("*" + t);
      ParseItemBack(e, done, "*" + t, eof);
      var one := done + [Elem(e.item, false)];
      assert one[..|one| - 1] + [Elem(e.item, true)] == done + [e];
      ParseStarStep(t, eof, one);
    } else {
      assert ShowElem(e) + t == ShowItem(e.item) + t;
      ParseItemBack(e, done, t, eof);
    }
  }

  ghost predicate AllOk(ps: Pattern) {
    forall i :: 0 <= i < |ps| ==> ElemOk(ps[i]) && SetOk(ps[i].item) && (ps[i].item.Eol? ==> i == |ps| - 1)
  }

  lemma NestedPrefix(ps: Pattern, k: nat)
    requires Nested(ps) && k <= |ps|
    ensures Nested(ps[..k])
    decreases |ps| - k
  {
    if k < |ps| {
      NestedPrefix(ps, k + 1);
      assert ps[..k + 1][..k] == ps[..k];
    } else {
      assert ps[..k] == ps;
    }
  }

  lemma {:induction false} ParseBackFrom(done: Pattern, ps: Pattern, rest: string, eof: char)
    requires Delimiter(eof) && Nested(done + ps) && AllOk(ps)
    ensures ParseFrom(Show(ps) + [eof] + rest, eof, done) == Some((done + ps, rest))
    decreases |ps|
  {
    hide Nested, ElemOk, SetOk, ShowElem;
    if ps == [] {
      assert done + [] == done;
      assert (Show(ps) + [eof] + rest)[1..] == rest;
    } else {
      var e, t := ps[0], Show(ps[1..]) + [eof] + rest;
      assert Show(ps) + [eof] + rest == ShowElem(e) + t;
      assert done + [e] + ps[1..] == done + ps;
      NestedPrefix(done + ps, |done| + 1);
      assert (done + ps)[..|done| + 1] == done + [e];
      if e.item.Eol? {
        assert ps[1..] == [];
      }
      ParseElemBack(e, done, t, eof);
      ParseBackFrom(done + [e], ps[1..], rest, eof);
    }
  }

  /** Every well-formed pattern can be typed, and is read back as it was meant. */
  lemma ParseShow(anchored: bool, ps: Pattern, rest: string, eof: char)
    requires Delimiter(eof) && WellFormed(ps)
    ensures Parse(ShowAll(anchored, ps) + [eof] + rest, eof) == Some(Parsed(anchored, ps, rest))
  {
    hide ParseFrom, Show, Nested, ElemOk, SetOk;
    var t := Show(ps) + [eof] + rest;
    assert [] + ps == ps;
    ParseBackFrom([], ps, rest, eof);
    ShowStart(ps);
    assert t[0] == if ps == [] then eof else Show(ps)[0];
    var text := ShowAll(anchored, ps) + [eof] + rest;
    assert text == if anchored then "^" + t else t;
    assert (if anchored then text[1..] else text) == t;
    assert anchored <==> text[0] == '^';
  }

  lemma ShowStart(ps: Pattern)
    ensures ps == [] ==> Show(ps) == []
    ensures ps != [] ==> Show(ps) != [] && Show(ps)[0] != '*' && Show(ps)[0] != '^'
  {
  }

  // ---------------------------------------------------------------------------------------------
  // What is read is well formed

  lemma {:induction false} ParseSetOk(text: string, done: string)
    requires IsText(text) && IsText(done) && '\n' !in done && (done != [] ==> ']' !in done[1..] && (text != [] ==> text[0] != ']'))
    ensures var r := ParseSet(text, done); r.Some? ==>
      IsText(r.value.0) && '\n' !in r.value.0 && r.value.0 != [] && ']' !in r.value.0[1..] && IsText(r.value.1)
      && r.value.0[0] == if done == [] then text[0] else done[0]
    decreases |text|
  {
    if text != [] && text[0] != '\n' {
      var done' := done + [text[0]];
      assert done != [] ==> done'[1..] == done[1..] + [text[0]];
      if !(|text| > 1 && text[1] == ']') {
        ParseSetOk(text[1..], done');
      }
    }
  }

  lemma WellFormedNested(ps: Pattern)
    requires WellFormed(ps)
    ensures Nested(ps)
  {
  }

  lemma WellFormedOk(ps: Pattern)
    requires WellFormed(ps)
    ensures PatternOk(ps)
  {
    NestedGroups(ps);
  }

  // A well-formed pattern stays so when an item is added.
  lemma AddOk(ps: Pattern, item: Item)
    requires WellFormed(ps) && ElemOk(Elem(item, false)) && SetOk(item) && (ps != [] ==> !ps[|ps| - 1].item.Eol?)
    requires item.Open? ==> item.n == NextGroup(ps) < NBRA
    requires item.Close? ==> OpenGroups(ps) != [] && item.n == Innermost(ps)
    ensures WellFormed(ps + [Elem(item, false)])
  {
    var ps' := ps + [Elem(item, false)];
    assert ps'[..|ps|] == ps && ps'[|ps|] == Elem(item, false);
  }

  lemma StarOk(ps: Pattern)
    requires WellFormed(ps) && ps != [] && ps[|ps| - 1].item.IsSingle()
    ensures WellFormed(ps[..|ps| - 1] + [Elem(ps[|ps| - 1].item, true)])
  {
    var ps' := ps[..|ps| - 1] + [Elem(ps[|ps| - 1].item, true)];
    assert ps'[..|ps| - 1] == ps[..|ps| - 1];
  }

  // The end of the line is read only just before the delimiter.
  ghost predicate Reading(text: string, eof: char, ps: Pattern) {
    IsText(text) && WellFormed(ps) && (ps != [] && ps[|ps| - 1].item.Eol? ==> text != [] && text[0] == eof)
  }

  // The open groups are distinct.
  lemma {:induction false} NestedOpens(ps: Pattern)
    requires Nested(ps)
    ensures NextGroup(ps) <= NBRA
    ensures forall i :: 0 <= i < |ps| && ps[i].item.Open? ==> ps[i].item.n < NextGroup(ps)
    ensures forall i :: 0 <= i < |OpenGroups(ps)| ==> OpenGroups(ps)[i] < NextGroup(ps)
    ensures forall i, j :: 0 <= i < j < |OpenGroups(ps)| ==> OpenGroups(ps)[i] != OpenGroups(ps)[j]
    decreases |ps|
  {
    if ps != [] {
      var before := ps[..|ps| - 1];
      NestedOpens(before);
      forall i | 0 <= i < |ps| && ps[i].item.Open? ensures ps[i].item.n < NextGroup(ps) {
        assert i < |before| ==> before[i] == ps[i];
      }
    }
  }

  // No group is open again once it was closed.
  lemma {:induction false} NestedCloses(ps: Pattern)
    requires Nested(ps)
    ensures forall i :: 0 <= i < |ps| && ps[i].item.Close? ==> ps[i].item.n < NextGroup(ps) && ps[i].item.n !in OpenGroups(ps)
    decreases |ps|
  {
    if ps != [] {
      var before, last := ps[..|ps| - 1], ps[|ps| - 1].item;
      NestedCloses(before);
      NestedOpens(before);
      forall i | 0 <= i < |ps| && ps[i].item.Close? ensures ps[i].item.n < NextGroup(ps) && ps[i].item.n !in OpenGroups(ps) {
        if i < |before| {
          assert before[i] == ps[i];
        } else {
          assert last.n in OpenGroups(before);
        }
      }
    }
  }

  // Each group is opened once and closed at most once, in the order of the numbers.
  lemma {:induction false} NestedGroups(ps: Pattern)
    requires Nested(ps)
    ensures GroupsOk(ps)
    decreases |ps|
  {
    if ps != [] {
      var before, last := ps[..|ps| - 1], ps[|ps| - 1].item;
      NestedGroups(before);
      NestedOpens(before);
      NestedCloses(before);
      assert last.Close? ==> last.n in OpenGroups(before);
      GroupsAdded(before, ps[|ps| - 1]);
      assert before + [ps[|ps| - 1]] == ps;
    }
  }

  lemma GroupsAdded(ps: Pattern, e: Elem)
    requires GroupsOk(ps)
    requires e.item.Open? ==> forall i :: 0 <= i < |ps| && ps[i].item.Open? ==> ps[i].item.n < e.item.n
    requires e.item.Close? ==> forall i :: 0 <= i < |ps| && ps[i].item.Close? ==> ps[i].item.n != e.item.n
    ensures GroupsOk(ps + [e])
  {
  }

  lemma InnermostOk(ps: Pattern)
    requires Nested(ps)
    ensures OpenGroups(ps) != [] ==> Innermost(ps) < NBRA
  {
    NestedOpens(ps);
  }

  // A set that is read.
  lemma ReadClassOk(text: string, eof: char, ps: Pattern)
    requires Reading(text, eof, ps) && ReadNext(text, eof, ps).Item? && text[0] == '[' != eof
    ensures Reading(ReadNext(text, eof, ps).rest, eof, ReadNext(text, eof, ps).pattern)
  {
    hide ParseSet, WellFormed, NextGroup, OpenGroups, Innermost, Nested;
    var r := ReadNext(text, eof, ps);
    var t := if text[1] == '^' then text[2..] else text[1..];
    ParseSetOk(t, []);
    var item := Class(ParseSet(t, []).value.0, text[1] == '^');
    AddOk(ps, item);
    assert r.pattern == ps + [Elem(item, false)];
  }

  lemma ReadNextOk(text: string, eof: char, ps: Pattern)
    requires Reading(text, eof, ps) && ReadNext(text, eof, ps).Item?
    ensures Reading(ReadNext(text, eof, ps).rest, eof, ReadNext(text, eof, ps).pattern)
  {
    hide ParseSet, WellFormed, NextGroup, OpenGroups, Innermost, Nested;
    var r := ReadNext(text, eof, ps);
    WellFormedNested(ps);
    InnermostOk(ps);
    var c := text[0];
    if c == '*' {
      StarOk(ps);
    } else if c == '[' {
      ReadClassOk(text, eof, ps);
    } else {
      AddOk(ps, r.pattern[|ps|].item);
      assert r.pattern == ps + [Elem(r.pattern[|ps|].item, false)];
    }
  }

  /** Only well-formed patterns are read. */
  lemma {:induction false} ParseFromOk(text: string, eof: char, ps: Pattern)
    requires Reading(text, eof, ps)
    ensures var r := ParseFrom(text, eof, ps); r.Some? ==> WellFormed(r.value.0)
    decreases |text|
  {
    hide WellFormed, ReadNext;
    var r := ReadNext(text, eof, ps);
    if r.Item? {
      ReadNextOk(text, eof, ps);
      ParseFromOk(r.rest, eof, r.pattern);
    }
  }

  lemma ParseOk(text: string, eof: char)
    requires IsText(text)
    ensures var r := Parse(text, eof); r.Some? ==> WellFormed(r.value.pattern)
  {
    var t := if text != [] && text[0] == '^' then text[1..] else text;
    ParseFromOk(t, eof, []);
  }
}
