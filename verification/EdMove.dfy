/** The m command of `user/bin/ed.c`: a block of lines is moved by reversing ranges in place. */
module EdMove {
  import opened Wrappers

  // s with the part from i to j - 1 the other way round
  function Reversed<T>(s: seq<T>, i: nat, j: nat): (r: seq<T>)
    requires i <= j <= |s|
    ensures |r| == |s| && forall x :: 0 <= x < |s| ==> r[x] == if i <= x < j then s[i + j - 1 - x] else s[x]
  {
    seq(|s|, x requires 0 <= x < |s| => if i <= x < j then s[i + j - 1 - x] else s[x])
  }

  // s with two neighbouring parts swapped
  function Swapped<T>(s: seq<T>, i: nat, j: nat, k: nat): (r: seq<T>)
    requires i <= j <= k <= |s|
  {
    s[..i] + (s[j..k] + s[i..j]) + s[k..]
  }

  /** Reversing two neighbouring parts and then both together swaps them. */
  lemma ReverseSwaps<T>(s: seq<T>, i: nat, j: nat, k: nat)
    requires i <= j <= k <= |s|
    ensures Reversed(Reversed(Reversed(s, i, j), j, k), i, k) == Swapped(s, i, j, k)
  {
    forall x | 0 <= x < |s|
      ensures Reversed(Reversed(Reversed(s, i, j), j, k), i, k)[x] == Swapped(s, i, j, k)[x]
    {
      ReverseSwapsAt(s, i, j, k, x);
    }
  }

  lemma ReverseSwapsAt<T>(s: seq<T>, i: nat, j: nat, k: nat, x: nat)
    requires i <= j <= k <= |s| && x < |s|
    ensures |Swapped(s, i, j, k)| == |s|
    ensures Reversed(Reversed(Reversed(s, i, j), j, k), i, k)[x] == Swapped(s, i, j, k)[x]
  {
    hide *;
    SwappedAt(s, i, j, k, x);
    var a := Reversed(s, i, j);
    ReversedAt(s, i, j, 0);
    var b := Reversed(a, j, k);
    ReversedAt(a, j, k, 0);
    ReversedAt(b, i, k, x);
    var y := if i <= x < k then i + k - 1 - x else x;
    ReversedAt(a, j, k, y);
    ReversedAt(s, i, j, if j <= y < k then j + k - 1 - y else y);
  }

  lemma ReversedAt<T>(s: seq<T>, i: nat, j: nat, x: nat)
    requires i <= j <= |s| && x < |s|
    ensures |Reversed(s, i, j)| == |s| && Reversed(s, i, j)[x] == s[if i <= x < j then i + j - 1 - x else x]
  {
  }

  lemma SwappedAt<T>(s: seq<T>, i: nat, j: nat, k: nat, x: nat)
    requires i <= j <= k <= |s| && x < |s|
    ensures |Swapped(s, i, j, k)| == |s|
    ensures Swapped(s, i, j, k)[x] == s[if i <= x < i + k - j then x - i + j else if i + k - j <= x < k then x - (k - j) else x]
  {
  }

  // reverse: the lines from index from up to, and not including, index to.
  method Reverse(lines: array<int>, from: nat, to: nat)
    requires from < to <= lines.Length
    modifies lines
    ensures lines[..] == Reversed(old(lines[..]), from, to)
  {
    var a1, a2 := from, to;
    while true
      invariant from <= a1 <= a2 <= to && a1 - from == to - a2
      invariant forall k :: 0 <= k < lines.Length && !(from <= k < a1 || a2 <= k < to) ==> lines[k] == old(lines[k])
      invariant forall k :: from <= k < a1 || a2 <= k < to ==> lines[k] == old(lines[from + to - 1 - k])
      decreases a2
    {
      a2 := a2 - 1;
      var t := lines[a2];
      if a2 <= a1 {
        break;
      }
      lines[a2] := lines[a1];
      lines[a1] := t;
      a1 := a1 + 1;
    }
  }

  // The lines without the block from ad1 to ad2 - 1.
  function Without<T>(s: seq<T>, ad1: nat, ad2: nat): seq<T>
    requires ad1 <= ad2 <= |s|
  {
    s[..ad1] + s[ad2..]
  }

  // Where the line at adt, which is not in the block, stands once the block is taken out.
  function Landing(adt: nat, ad1: nat, ad2: nat): nat
    requires ad1 <= ad2 && (adt < ad1 || adt >= ad2)
  {
    if adt < ad1 then adt else adt - (ad2 - ad1)
  }

  // The block is taken out, and put back after the line that stood at adt.
  function Moved<T>(s: seq<T>, adt: nat, ad1: nat, ad2: nat): seq<T>
    requires ad1 < ad2 <= |s| && adt < |s| && (adt < ad1 || adt >= ad2)
  {
    var rest, at := Without(s, ad1, ad2), Landing(adt, ad1, ad2);
    rest[..at + 1] + s[ad1..ad2] + rest[at + 1..]
  }

  // Swapping the block with the lines between it and its destination moves it.
  lemma SwapMoves<T>(s: seq<T>, adt: nat, ad1: nat, ad2: nat)
    requires ad1 < ad2 <= |s| && adt < |s| && (adt < ad1 || adt >= ad2)
    ensures adt < ad1 ==> Swapped(s, adt + 1, ad1, ad2) == Moved(s, adt, ad1, ad2)
    ensures adt >= ad2 ==> Swapped(s, ad1, ad2, adt + 1) == Moved(s, adt, ad1, ad2)
  {
    var rest, at := Without(s, ad1, ad2), Landing(adt, ad1, ad2);
    if adt < ad1 {
      assert rest[..at + 1] == s[..adt + 1];
      assert rest[at + 1..] == s[adt + 1..ad1] + s[ad2..];
    } else {
      assert rest[..at + 1] == s[..ad1] + s[ad2..adt + 1];
      assert rest[at + 1..] == s[adt + 1..];
    }
  }

  lemma MovedLast<T>(s: seq<T>, adt: nat, ad1: nat, ad2: nat)
    requires ad1 < ad2 <= |s| && adt < |s| && (adt < ad1 || adt >= ad2)
    ensures |Moved(s, adt, ad1, ad2)| == |s|
    ensures Moved(s, adt, ad1, ad2)[Landing(adt, ad1, ad2) + ad2 - ad1] == s[ad2 - 1]
  {
  }

  /** The block follows the line it was moved after, and the other lines stand as they stood. */
  lemma MovedParts<T>(s: seq<T>, adt: nat, ad1: nat, ad2: nat)
    requires ad1 < ad2 <= |s| && adt < |s| && (adt < ad1 || adt >= ad2)
    ensures var m, at, len := Moved(s, adt, ad1, ad2), if adt < ad1 then adt else adt - (ad2 - ad1), ad2 - ad1;
      && |m| == |s| && at + 1 + len <= |m| && m[at] == s[adt] && m[at + 1..at + 1 + len] == s[ad1..ad2]
      && m[..at + 1] + m[at + 1 + len..] == s[..ad1] + s[ad2..]
  {
    WithoutAt(s, adt, ad1, ad2);
    hide Without, Landing;
    InsertedParts(Without(s, ad1, ad2), s[ad1..ad2], Landing(adt, ad1, ad2) + 1);
  }

  lemma InsertedParts<T>(rest: seq<T>, block: seq<T>, k: nat)
    requires 0 < k <= |rest|
    ensures var m := rest[..k] + block + rest[k..];
      m[k - 1] == rest[k - 1] && m[k..k + |block|] == block && m[..k] + m[k + |block|..] == rest
  {
    var m := rest[..k] + block + rest[k..];
    assert m[..k] == rest[..k] && m[k + |block|..] == rest[k..];
  }

  lemma WithoutAt<T>(s: seq<T>, adt: nat, ad1: nat, ad2: nat)
    requires ad1 < ad2 <= |s| && adt < |s| && (adt < ad1 || adt >= ad2)
    ensures Landing(adt, ad1, ad2) == if adt < ad1 then adt else adt - (ad2 - ad1)
    ensures Without(s, ad1, ad2) == s[..ad1] + s[ad2..] && |Without(s, ad1, ad2)| == |s| - (ad2 - ad1)
    ensures Landing(adt, ad1, ad2) < |Without(s, ad1, ad2)| && Without(s, ad1, ad2)[Landing(adt, ad1, ad2)] == s[adt]
  {
  }

  lemma MovedNowhere<T>(s: seq<T>, ad1: nat, ad2: nat)
    requires 0 < ad1 < ad2 <= |s|
    ensures Moved(s, ad1 - 1, ad1, ad2) == s
  {
    SwapMoves(s, ad1 - 1, ad1, ad2);
  }

  /** move, without copying: the lines from ad1 to last go after the line adt, and dot is the last of
      them; it is an error to move a block into itself. */
  method Move(lines: array<int>, adt: nat, ad1: nat, last: nat) returns (dot: Option<nat>)
    requires 0 < ad1 <= last < lines.Length && adt < lines.Length
    modifies lines
    ensures dot == None <==> ad1 <= adt <= last
    ensures dot == None ==> lines[..] == old(lines[..])
    ensures dot.Some? ==> lines[..] == Moved(old(lines[..]), adt, ad1, last + 1)
    ensures dot.Some? ==> dot.value < lines.Length && lines[..][dot.value] == old(lines[last])
  {
    hide Moved, Swapped, Reversed;
    ghost var s := lines[..];
    var ad2 := last + 1;
    if adt < ad1 {
      dot := Some(adt + (ad2 - ad1));
      MovedLast(s, adt, ad1, ad2);
      if adt + 1 == ad1 {
        MovedNowhere(s, ad1, ad2);
        return;
      }
      SwapMoves(s, adt, ad1, ad2);
      ReverseSwaps(s, adt + 1, ad1, ad2);
      Reverse(lines, adt + 1, ad1);
      Reverse(lines, ad1, ad2);
      Reverse(lines, adt + 1, ad2);
    } else if adt >= ad2 {
      dot := Some(adt);
      MovedLast(s, adt, ad1, ad2);
      SwapMoves(s, adt, ad1, ad2);
      ReverseSwaps(s, ad1, ad2, adt + 1);
      Reverse(lines, ad1, ad2);
      Reverse(lines, ad2, adt + 1);
      Reverse(lines, ad1, adt + 1);
    } else {
      dot := None;
    }
  }
}
