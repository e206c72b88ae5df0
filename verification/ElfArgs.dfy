/** The initial user stack of `kernel/api/elf32.c`: the image of the arguments, as the System V ABI (Intel386
    supplement, section "Process Initialization") lays it out, and how a program finds them in it. */
module ElfArgs {
  import opened Bytes

  const AT_NULL := 0
  const AT_PHDR := 3

  // Elf32_auxv_t
  datatype Aux = Aux(kind: nat, value: nat)

  type Text = seq<byte>

  // The strings of a vector end at their first zero byte.
  predicate Terminated(ss: seq<Text>) {
    forall i, k :: 0 <= i < |ss| && 0 <= k < |ss[i]| ==> ss[i][k] != 0
  }

  predicate AuxOk(auxv: seq<Aux>) {
    forall i :: 0 <= i < |auxv| ==> 0 < auxv[i].kind <= MAX_WORD && auxv[i].value <= MAX_WORD
  }

  // ---------------------------------------------------------------------------------------------
  // Sizes

  // The first n strings with their terminators.
  function Size(ss: seq<Text>, n: nat): nat
    requires n <= |ss|
  {
    if n == 0 then 0 else Size(ss, n - 1) + |ss[n - 1]| + 1
  }

  function Headers(auxv: seq<Aux>, n: nat): nat
    requires n <= |auxv|
  {
    if n == 0 then 0 else Headers(auxv, n - 1) + if auxv[n - 1].kind == AT_PHDR then 1 else 0
  }

  function VectorSize(argv: seq<Text>, envp: seq<Text>, auxv: seq<Aux>): nat {
    4 * (|argv| + 1) + 4 * (|envp| + 1) + 8 * (|auxv| + 1)
  }

  // argc and three pointers, the vectors, the strings, and a program header table for each AT_PHDR
  function ImageSize(argv: seq<Text>, envp: seq<Text>, auxv: seq<Aux>, pht: seq<byte>): nat {
    16 + VectorSize(argv, envp, auxv) + Size(argv, |argv|) + Size(envp, |envp|) + Headers(auxv, |auxv|) * |pht|
  }

  // _elf32_calc_argsize
  method CalcArgSize(argv: seq<Text>, envp: seq<Text>, auxv: seq<Aux>, phtsize: nat)
    returns (size: nat, argc: nat, envc: nat, auxc: nat)
    ensures size == 16 + VectorSize(argv, envp, auxv) + Size(argv, |argv|) + Size(envp, |envp|) + Headers(auxv, |auxv|) * phtsize
    ensures argc == |argv| && envc == |envp| && auxc == |auxv|
  {
    size := 0;
    for i := 0 to |argv|
      invariant size == Size(argv, i)
    {
      size := size + |argv[i]| + 1;
    }
    argc := |argv|;
    size := size + (argc + 1) * 4;
    ghost var before := size;
    for i := 0 to |envp|
      invariant size == before + Size(envp, i)
    {
      size := size + |envp[i]| + 1;
    }
    envc := |envp|;
    size := size + (envc + 1) * 4;
    before := size;
    for i := 0 to |auxv|
      invariant size == before + Headers(auxv, i) * phtsize
    {
      if auxv[i].kind == AT_PHDR {
        OneMore(Headers(auxv, i), phtsize);
        size := size + phtsize;
      }
    }
    auxc := |auxv|;
    size := size + (auxc + 1) * 8;
    size := size + 4;
    size := size + 3 * 4;
  }

  lemma OneMore(n: nat, w: nat)
    ensures (n + 1) * w == n * w + w
  {
  }

  // ---------------------------------------------------------------------------------------------
  // Reading the image

  ghost predicate Holds(m: seq<byte>, off: nat, data: seq<byte>) {
    off + |data| <= |m| && m[off..off + |data|] == data
  }

  // The word at an address of a memory that begins at base.
  function WordAt(m: seq<byte>, base: nat, addr: nat): nat
    requires base <= addr && addr + 4 <= base + |m|
  {
    Unpack(m[addr - base..addr - base + 4])
  }

  // The string at an offset, up to the first zero byte.
  function TextAt(m: seq<byte>, off: nat): Text
    requires off <= |m|
    decreases |m| - off
  {
    if off == |m| || m[off] == 0 then [] else [m[off]] + TextAt(m, off + 1)
  }

  // A vector of pointers to the strings, and a null pointer.
  ghost predicate VectorAt(m: seq<byte>, base: nat, addr: nat, ss: seq<Text>) {
    && base <= addr && addr + 4 * (|ss| + 1) <= base + |m|
    && (forall i :: 0 <= i < |ss| ==>
          base <= WordAt(m, base, addr + 4 * i) <= base + |m| && TextAt(m, WordAt(m, base, addr + 4 * i) - base) == ss[i])
    && WordAt(m, base, addr + 4 * |ss|) == 0
  }

  // The auxiliary vector, where AT_PHDR points to a copy of the program header table, and its end.
  ghost predicate AuxAt(m: seq<byte>, base: nat, addr: nat, auxv: seq<Aux>, pht: seq<byte>) {
    && base <= addr && addr + 8 * (|auxv| + 1) <= base + |m|
    && (forall i :: 0 <= i < |auxv| ==> EntryAt(m, base, addr + 8 * i, auxv[i], pht))
    && WordAt(m, base, addr + 8 * |auxv|) == AT_NULL
  }

  ghost predicate EntryAt(m: seq<byte>, base: nat, addr: nat, a: Aux, pht: seq<byte>)
    requires base <= addr && addr + 8 <= base + |m|
  {
    && WordAt(m, base, addr) == a.kind
    && var v := WordAt(m, base, addr + 4);
       if a.kind == AT_PHDR then base <= v && Holds(m, v - base, pht) else v == a.value
  }

  // The pointers of a vector lead to strings that lie one right after the other from an address on.
  ghost predicate PointersTo(m: seq<byte>, base: nat, addr: nat, ss: seq<Text>, at: nat) {
    && base <= addr && addr + 4 * |ss| <= base + |m|
    && forall i :: 0 <= i < |ss| ==> WordAt(m, base, addr + 4 * i) == at + Size(ss, i)
  }

  // The entry AT_PHDR leads to an address.
  ghost predicate HeadersTo(m: seq<byte>, base: nat, addr: nat, auxv: seq<Aux>, at: nat) {
    && base <= addr && addr + 8 * |auxv| <= base + |m|
    && forall i :: 0 <= i < |auxv| && auxv[i].kind == AT_PHDR ==> WordAt(m, base, addr + 8 * i + 4) == at
  }

  // Where everything is: argc and the pointers, the three vectors, the strings of argv, those of envp, and
  // the program header table follow one another without gap or overlap.
  ghost predicate Layout(m: seq<byte>, base: nat, argv: seq<Text>, envp: seq<Text>, auxv: seq<Aux>) {
    var venvp, vauxv := base + 16 + 4 * (|argv| + 1), base + 16 + 4 * (|argv| + 1 + |envp| + 1);
    var strings := base + 16 + VectorSize(argv, envp, auxv);
    var envs := strings + Size(argv, |argv|);
    && |m| >= 16 && WordAt(m, base, base + 4) == base + 16 && WordAt(m, base, base + 8) == venvp && WordAt(m, base, base + 12) == vauxv
    && PointersTo(m, base, base + 16, argv, strings)
    && PointersTo(m, base, venvp, envp, envs)
    && HeadersTo(m, base, vauxv, auxv, envs + Size(envp, |envp|))
  }

  /** The strings of a vector do not overlap, and end where the next thing begins. */
  lemma StringsApart(ss: seq<Text>, i: nat, j: nat)
    requires i < j <= |ss|
    ensures Size(ss, i) + |ss[i]| + 1 <= Size(ss, j) <= Size(ss, |ss|)
    ensures j == i + 1 ==> Size(ss, i) + |ss[i]| + 1 == Size(ss, j)
  {
    hide Size;
    NextParts(ss, i, 0);
    SizeGrows(ss, i + 1, j);
    SizeGrows(ss, j, |ss|);
  }

  // What a program finds that follows the pointers from the low end.
  ghost predicate ImageOk(m: seq<byte>, base: nat, argv: seq<Text>, envp: seq<Text>, auxv: seq<Aux>, pht: seq<byte>) {
    && |m| >= 16
    && WordAt(m, base, base) == |argv|
    && VectorAt(m, base, WordAt(m, base, base + 4), argv)
    && VectorAt(m, base, WordAt(m, base, base + 8), envp)
    && AuxAt(m, base, WordAt(m, base, base + 12), auxv, pht)
  }

  lemma {:induction false} TextBack(m: seq<byte>, off: nat, s: Text)
    requires Holds(m, off, s + [0]) && forall k :: 0 <= k < |s| ==> s[k] != 0
    ensures TextAt(m, off) == s
    decreases |s|
  {
    var d := s + [0];
    assert m[off] == m[off..off + |d|][0] == d[0];
    if s != [] {
      assert m[off + 1..off + 1 + |s|] == m[off..off + |d|][1..] == s[1..] + [0];
      TextBack(m, off + 1, s[1..]);
    }
  }

  // ---------------------------------------------------------------------------------------------
  // The contents of the vectors

  // The first n pointers to strings that lie one after the other from at on.
  function PointerBytes(ss: seq<Text>, at: nat, n: nat): (s: seq<byte>)
    requires n <= |ss|
    ensures |s| == 4 * n
  {
    if n == 0 then [] else PointerBytes(ss, at, n - 1) + Pack(at + Size(ss, n - 1))
  }

  function TextBytes(ss: seq<Text>, n: nat): (s: seq<byte>)
    requires n <= |ss|
    ensures |s| == Size(ss, n)
  {
    if n == 0 then [] else TextBytes(ss, n - 1) + ss[n - 1] + [0]
  }

  function AuxBytes(auxv: seq<Aux>, at: nat, n: nat): (s: seq<byte>)
    requires n <= |auxv|
    ensures |s| == 8 * n
  {
    if n == 0 then []
    else AuxBytes(auxv, at, n - 1) + Pack(auxv[n - 1].kind) + Pack(if auxv[n - 1].kind == AT_PHDR then at else auxv[n - 1].value)
  }

  lemma HoldsPart(m: seq<byte>, off: nat, a: seq<byte>, b: seq<byte>, c: seq<byte>)
    requires Holds(m, off, a + b + c)
    ensures Holds(m, off, a) && Holds(m, off + |a|, b) && Holds(m, off + |a| + |b|, c)
  {
    var n := |a| + |b| + |c|;
    var d := m[off..off + n];
    assert d == a + b + c;
    SliceOfSlice(m, off, n, 0, |a|);
    SliceOfSlice(m, off, n, |a|, |a| + |b|);
    SliceOfSlice(m, off, n, |a| + |b|, n);
    assert d[0..|a|] == a && d[|a|..|a| + |b|] == b && d[|a| + |b|..n] == c;
  }

  lemma SliceOfSlice(m: seq<byte>, off: nat, n: nat, x: nat, y: nat)
    requires off + n <= |m| && x <= y <= n
    ensures m[off..off + n][x..y] == m[off + x..off + y]
  {
    var a, b := m[off..off + n][x..y], m[off + x..off + y];
    forall k | 0 <= k < y - x ensures a[k] == b[k] {
    }
  }

  lemma {:induction false} SizeGrows(ss: seq<Text>, i: nat, n: nat)
    requires i <= n <= |ss|
    ensures Size(ss, i) <= Size(ss, n)
    decreases n
  {
    if i < n {
      SizeGrows(ss, i, n - 1);
    }
  }

  lemma {:induction false} PointerBack(m: seq<byte>, off: nat, ss: seq<Text>, at: nat, n: nat, i: nat)
    requires i < n <= |ss| && Holds(m, off, PointerBytes(ss, at, n)) && at + Size(ss, |ss|) <= MAX_WORD
    ensures off + 4 * i + 4 <= |m| && Unpack(m[off + 4 * i..off + 4 * i + 4]) == at + Size(ss, i)
    decreases n
  {
    hide Pack, Unpack;
    var a, b := PointerBytes(ss, at, n - 1), Pack(at + Size(ss, n - 1));
    assert PointerBytes(ss, at, n) == a + b + [];
    HoldsPart(m, off, a, b, []);
    if i == n - 1 {
      SizeGrows(ss, i, |ss|);
      UnpackPack(at + Size(ss, i));
    } else {
      PointerBack(m, off, ss, at, n - 1, i);
    }
  }

  lemma {:induction false} TextsBack(m: seq<byte>, off: nat, ss: seq<Text>, n: nat, i: nat)
    requires i < n <= |ss| && Holds(m, off, TextBytes(ss, n)) && Terminated(ss)
    ensures off + Size(ss, i) <= |m| && TextAt(m, off + Size(ss, i)) == ss[i]
    decreases n
  {
    var a, b := TextBytes(ss, n - 1), ss[n - 1] + [0];
    assert TextBytes(ss, n) == a + b + [];
    HoldsPart(m, off, a, b, []);
    if i == n - 1 {
      TextBack(m, off + Size(ss, i), ss[i]);
    } else {
      TextsBack(m, off, ss, n - 1, i);
    }
  }

  /** A vector of pointers and the strings it points to are found again. */
  lemma VectorBack(m: seq<byte>, base: nat, off: nat, str: nat, ss: seq<Text>)
    requires Terminated(ss) && base > 0 && base + |m| <= MAX_WORD
    requires Holds(m, off, PointerBytes(ss, base + str, |ss|)) && Holds(m, off + 4 * |ss|, Pack(0))
    requires Holds(m, str, TextBytes(ss, |ss|))
    ensures VectorAt(m, base, base + off, ss) && PointersTo(m, base, base + off, ss, base + str)
  {
    hide Pack, Unpack, TextAt, Holds, PointerBytes, TextBytes, Size;
    HoldsLength(m, off + 4 * |ss|, Pack(0));
    HoldsLength(m, str, TextBytes(ss, |ss|));
    forall i | 0 <= i < |ss|
      ensures base <= WordAt(m, base, base + off + 4 * i) <= base + |m|
      ensures TextAt(m, WordAt(m, base, base + off + 4 * i) - base) == ss[i]
      ensures WordAt(m, base, base + off + 4 * i) == base + str + Size(ss, i)
    {
      PointerBack(m, off, ss, base + str, |ss|, i);
      TextsBack(m, str, ss, |ss|, i);
    }
    WordBack(m, off + 4 * |ss|, 0);
  }

  lemma HoldsLength(m: seq<byte>, off: nat, data: seq<byte>)
    requires Holds(m, off, data)
    ensures off + |data| <= |m|
  {
  }

  lemma WordBack(m: seq<byte>, off: nat, x: nat)
    requires Holds(m, off, Pack(x)) && x <= MAX_WORD
    ensures off + 4 <= |m| && Unpack(m[off..off + 4]) == x
  {
    UnpackPack(x);
  }

  lemma {:induction false} EntryBack(m: seq<byte>, base: nat, off: nat, auxv: seq<Aux>, at: nat, n: nat, i: nat, pht: seq<byte>)
    requires i < n <= |auxv| && AuxOk(auxv) && Holds(m, off, AuxBytes(auxv, base + at, n)) && base + at <= MAX_WORD
    requires Headers(auxv, |auxv|) > 0 ==> Holds(m, at, pht)
    ensures off + 8 * i + 8 <= |m| && EntryAt(m, base, base + off + 8 * i, auxv[i], pht)
    ensures auxv[i].kind == AT_PHDR ==> WordAt(m, base, base + off + 8 * i + 4) == base + at
    decreases n
  {
    hide Pack, Unpack, Holds;
    var a, b, c := AuxBytes(auxv, base + at, n - 1), Pack(auxv[n - 1].kind),
                   Pack(if auxv[n - 1].kind == AT_PHDR then base + at else auxv[n - 1].value);
    HoldsPart(m, off, a, b, c);
    if i == n - 1 {
      WordBack(m, off + 8 * i, auxv[i].kind);
      WordBack(m, off + 8 * i + 4, if auxv[i].kind == AT_PHDR then base + at else auxv[i].value);
      HeadersCount(auxv, i);
    } else {
      EntryBack(m, base, off, auxv, at, n - 1, i, pht);
    }
  }

  lemma HeadersCount(auxv: seq<Aux>, i: nat)
    requires i < |auxv|
    ensures auxv[i].kind == AT_PHDR ==> Headers(auxv, |auxv|) > 0
  {
    HeadersGrow(auxv, i + 1, |auxv|);
  }

  lemma {:induction false} HeadersGrow(auxv: seq<Aux>, i: nat, n: nat)
    requires i <= n <= |auxv|
    ensures Headers(auxv, i) <= Headers(auxv, n)
    decreases n
  {
    if i < n {
      HeadersGrow(auxv, i, n - 1);
    }
  }

  lemma AuxBack(m: seq<byte>, base: nat, off: nat, at: nat, auxv: seq<Aux>, pht: seq<byte>)
    requires AuxOk(auxv) && base + at <= MAX_WORD && off + 8 * (|auxv| + 1) <= |m|
    requires Holds(m, off, AuxBytes(auxv, base + at, |auxv|)) && Holds(m, off + 8 * |auxv|, Pack(AT_NULL))
    requires Headers(auxv, |auxv|) > 0 ==> Holds(m, at, pht)
    ensures AuxAt(m, base, base + off, auxv, pht) && HeadersTo(m, base, base + off, auxv, base + at)
  {
    hide Pack, Unpack, Holds, EntryAt, AuxOk;
    forall i | 0 <= i < |auxv|
      ensures EntryAt(m, base, base + off + 8 * i, auxv[i], pht)
      ensures auxv[i].kind == AT_PHDR ==> WordAt(m, base, base + off + 8 * i + 4) == base + at
    {
      EntryBack(m, base, off, auxv, at, |auxv|, i, pht);
    }
    WordBack(m, off + 8 * |auxv|, AT_NULL);
  }

  // ---------------------------------------------------------------------------------------------
  // Building the image

  // Only the bytes from lo to hi - 1, and from lo' to hi' - 1, differ.
  ghost predicate OnlyIn(m: seq<byte>, m': seq<byte>, lo: nat, hi: nat, lo': nat, hi': nat) {
    |m'| == |m| && forall k :: 0 <= k < |m| && !(lo <= k < hi) && !(lo' <= k < hi') ==> m'[k] == m[k]
  }

  lemma HoldsKept(m: seq<byte>, m': seq<byte>, lo: nat, hi: nat, lo': nat, hi': nat, off: nat, data: seq<byte>)
    requires OnlyIn(m, m', lo, hi, lo', hi') && Holds(m, off, data)
    requires (off + |data| <= lo || hi <= off || hi <= lo) && (off + |data| <= lo' || hi' <= off || hi' <= lo')
    ensures Holds(m', off, data)
  {
    assert forall k :: off <= k < off + |data| ==> m'[k] == m[k];
    assert m'[off..off + |data|] == m[off..off + |data|];
  }

  lemma HoldsJoin(m: seq<byte>, off: nat, a: seq<byte>, b: seq<byte>)
    requires Holds(m, off, a) && Holds(m, off + |a|, b)
    ensures Holds(m, off, a + b)
  {
    assert m[off..off + |a| + |b|] == m[off..off + |a|] + m[off + |a|..off + |a| + |b|];
  }

  method PutBytes(buf: array<byte>, pos: nat, data: seq<byte>)
    requires pos + |data| <= buf.Length
    modifies buf
    ensures OnlyIn(old(buf[..]), buf[..], pos, pos + |data|, 0, 0) && Holds(buf[..], pos, data)
  {
    for i := 0 to |data|
      invariant OnlyIn(old(buf[..]), buf[..], pos, pos + |data|, 0, 0) && forall k :: 0 <= k < i ==> buf[pos + k] == data[k]
    {
      buf[pos + i] := data[i];
    }
    assert buf[..][pos..pos + |data|] == data;
  }

  // The loop over argv, and over envp: each string, and its address in user space; then a null pointer.
  method CopyVector(buf: array<byte>, vec0: nat, str0: nat, vstr0: nat, ss: seq<Text>) returns (vec: nat, str: nat, vstr: nat)
    requires vec0 + 4 * (|ss| + 1) <= str0 && str0 + Size(ss, |ss|) <= buf.Length
    modifies buf
    ensures vec == vec0 + 4 * (|ss| + 1) && str == str0 + Size(ss, |ss|) && vstr == vstr0 + Size(ss, |ss|)
    ensures OnlyIn(old(buf[..]), buf[..], vec0, vec, str0, str)
    ensures Holds(buf[..], vec0, PointerBytes(ss, vstr0, |ss|)) && Holds(buf[..], vec0 + 4 * |ss|, Pack(0))
    ensures Holds(buf[..], str0, TextBytes(ss, |ss|))
  {
    hide Pack, Holds, PointerBytes, TextBytes, Size, OnlyIn;
    vec, str, vstr := vec0, str0, vstr0;
    ghost var m0 := buf[..];
    StartVector(m0, vec0, str0, vstr0, ss);
    for i := 0 to |ss|
      invariant vec == vec0 + 4 * i && str == str0 + Size(ss, i) && vstr == vstr0 + Size(ss, i)
      invariant OnlyIn(m0, buf[..], vec0, vec, str0, str)
      invariant Holds(buf[..], vec0, PointerBytes(ss, vstr0, i)) && Holds(buf[..], str0, TextBytes(ss, i))
    {
      NextParts(ss, i, vstr0);
      ghost var m1 := buf[..];
      var len := |ss[i]| + 1;
      PutBytes(buf, str, ss[i] + [0]);
      ghost var m2 := buf[..];
      PutBytes(buf, vec, Pack(vstr));
      NextString(m0, m1, m2, buf[..], vec0, vec, str0, str, vstr0, ss, i);
      str := str + len;
      vstr := vstr + len;
      vec := vec + 4;
    }
    ghost var m3 := buf[..];
    PutBytes(buf, vec, Pack(0));
    EndVector(m0, m3, buf[..], vec0, vec, str0, str, vstr0, ss);
    vec := vec + 4;
  }

  lemma StartVector(m: seq<byte>, vec: nat, str: nat, at: nat, ss: seq<Text>)
    requires vec <= |m| && str <= |m|
    ensures OnlyIn(m, m, vec, vec, str, str) && Size(ss, 0) == 0
    ensures Holds(m, vec, PointerBytes(ss, at, 0)) && Holds(m, str, TextBytes(ss, 0))
  {
  }

  lemma NextParts(ss: seq<Text>, i: nat, at: nat)
    requires i < |ss|
    ensures Size(ss, i + 1) == Size(ss, i) + |ss[i]| + 1 && Size(ss, i + 1) <= Size(ss, |ss|)
    ensures PointerBytes(ss, at, i + 1) == PointerBytes(ss, at, i) + Pack(at + Size(ss, i))
    ensures TextBytes(ss, i + 1) == TextBytes(ss, i) + (ss[i] + [0])
  {
    SizeGrows(ss, i + 1, |ss|);
  }

  // Two regions grow at their ends.
  lemma OnlyInBoth(m0: seq<byte>, m1: seq<byte>, m2: seq<byte>, m3: seq<byte>, lo: nat, hi: nat, lo': nat, hi': nat, end': nat)
    requires lo <= hi && lo' <= hi' <= end'
    requires OnlyIn(m0, m1, lo, hi, lo', hi') && OnlyIn(m1, m2, hi', end', 0, 0) && OnlyIn(m2, m3, hi, hi + 4, 0, 0)
    ensures OnlyIn(m0, m3, lo, hi + 4, lo', end')
  {
  }

  lemma NextString(m0: seq<byte>, m1: seq<byte>, m2: seq<byte>, m3: seq<byte>, vec0: nat, vec: nat, str0: nat, str: nat, at: nat,
                   ss: seq<Text>, i: nat)
    requires i < |ss| && vec == vec0 + 4 * i && str == str0 + Size(ss, i) && vec + 4 <= str0
    requires OnlyIn(m0, m1, vec0, vec, str0, str) && OnlyIn(m1, m2, str, str + |ss[i]| + 1, 0, 0) && OnlyIn(m2, m3, vec, vec + 4, 0, 0)
    requires Holds(m1, vec0, PointerBytes(ss, at, i)) && Holds(m1, str0, TextBytes(ss, i))
    requires Holds(m2, str, ss[i] + [0]) && Holds(m3, vec, Pack(at + Size(ss, i)))
    ensures OnlyIn(m0, m3, vec0, vec + 4, str0, str + |ss[i]| + 1)
    ensures Holds(m3, vec0, PointerBytes(ss, at, i + 1)) && Holds(m3, str0, TextBytes(ss, i + 1))
  {
    hide Pack, Holds, PointerBytes, TextBytes, Size, OnlyIn;
    NextParts(ss, i, at);
    OnlyInBoth(m0, m1, m2, m3, vec0, vec, str0, str, str + |ss[i]| + 1);
    HoldsKept(m1, m2, str, str + |ss[i]| + 1, 0, 0, vec0, PointerBytes(ss, at, i));
    HoldsKept(m1, m2, str, str + |ss[i]| + 1, 0, 0, str0, TextBytes(ss, i));
    HoldsJoin(m2, str0, TextBytes(ss, i), ss[i] + [0]);
    HoldsKept(m2, m3, vec, vec + 4, 0, 0, vec0, PointerBytes(ss, at, i));
    HoldsKept(m2, m3, vec, vec + 4, 0, 0, str0, TextBytes(ss, i + 1));
    HoldsJoin(m3, vec0, PointerBytes(ss, at, i), Pack(at + Size(ss, i)));
  }

  lemma EndVector(m0: seq<byte>, m1: seq<byte>, m2: seq<byte>, vec0: nat, vec: nat, str0: nat, str: nat, at: nat, ss: seq<Text>)
    requires vec == vec0 + 4 * |ss| && vec + 4 <= str0
    requires OnlyIn(m0, m1, vec0, vec, str0, str) && OnlyIn(m1, m2, vec, vec + 4, 0, 0)
    requires Holds(m1, vec0, PointerBytes(ss, at, |ss|)) && Holds(m1, str0, TextBytes(ss, |ss|))
    ensures OnlyIn(m0, m2, vec0, vec + 4, str0, str)
    ensures Holds(m2, vec0, PointerBytes(ss, at, |ss|)) && Holds(m2, str0, TextBytes(ss, |ss|))
  {
    hide Pack, Holds, PointerBytes, TextBytes, Size;
    HoldsKept(m1, m2, vec, vec + 4, 0, 0, vec0, PointerBytes(ss, at, |ss|));
    HoldsKept(m1, m2, vec, vec + 4, 0, 0, str0, TextBytes(ss, |ss|));
  }

  function EntryBytes(a: Aux, at: nat): (s: seq<byte>)
    ensures |s| == 8
  {
    Pack(a.kind) + Pack(if a.kind == AT_PHDR then at else a.value)
  }

  // One entry of auxv; AT_PHDR brings a copy of the program header table, and its address there.
  method PutEntry(buf: array<byte>, vec: nat, str: nat, vstr: nat, a: Aux, pht: seq<byte>)
    requires vec + 8 <= str && (a.kind == AT_PHDR ==> str + |pht| <= buf.Length) && str <= buf.Length
    modifies buf
    ensures OnlyIn(old(buf[..]), buf[..], vec, vec + 8, str, if a.kind == AT_PHDR then str + |pht| else str)
    ensures Holds(buf[..], vec, EntryBytes(a, vstr)) && (a.kind == AT_PHDR ==> Holds(buf[..], str, pht))
  {
    hide Pack, Holds;
    ghost var m0 := buf[..];
    PutBytes(buf, vec, Pack(a.kind));
    ghost var m1 := buf[..];
    PutBytes(buf, vec + 4, Pack(a.value));
    ghost var m2 := buf[..];
    HoldsKept(m1, m2, vec + 4, vec + 8, 0, 0, vec, Pack(a.kind));
    if a.kind == AT_PHDR {
      PutBytes(buf, str, pht);
      ghost var m3 := buf[..];
      HoldsKept(m2, m3, str, str + |pht|, 0, 0, vec, Pack(a.kind));
      PutBytes(buf, vec + 4, Pack(vstr));
      HoldsKept(m3, buf[..], vec + 4, vec + 8, 0, 0, vec, Pack(a.kind));
      HoldsKept(m3, buf[..], vec + 4, vec + 8, 0, 0, str, pht);
    }
    HoldsJoin(buf[..], vec, Pack(a.kind), Pack(if a.kind == AT_PHDR then vstr else a.value));
  }

  // The loop over auxv, and its end.
  method CopyAux(buf: array<byte>, vec0: nat, str: nat, vstr: nat, auxv: seq<Aux>, pht: seq<byte>)
    requires vec0 + 8 * (|auxv| + 1) <= str <= buf.Length
    requires Headers(auxv, |auxv|) > 0 ==> str + |pht| <= buf.Length
    modifies buf
    ensures OnlyIn(old(buf[..]), buf[..], vec0, vec0 + 8 * (|auxv| + 1), str, str + |pht|)
    ensures Holds(buf[..], vec0, AuxBytes(auxv, vstr, |auxv|)) && Holds(buf[..], vec0 + 8 * |auxv|, Pack(AT_NULL))
    ensures Headers(auxv, |auxv|) > 0 ==> Holds(buf[..], str, pht)
  {
    hide Pack, Holds, AuxBytes, EntryBytes, OnlyIn;
    var vec := vec0;
    ghost var m0 := buf[..];
    StartAux(m0, vec0, str, vstr, auxv, pht);
    for i := 0 to |auxv|
      invariant vec == vec0 + 8 * i && OnlyIn(m0, buf[..], vec0, vec, str, str + |pht|)
      invariant Holds(buf[..], vec0, AuxBytes(auxv, vstr, i)) && (Headers(auxv, i) > 0 ==> Holds(buf[..], str, pht))
    {
      ghost var m1 := buf[..];
      HeadersCount(auxv, i);
      PutEntry(buf, vec, str, vstr, auxv[i], pht);
      NextEntry(m0, m1, buf[..], vec0, vec, str, vstr, auxv, i, pht);
      vec := vec + 8;
    }
    ghost var m2 := buf[..];
    PutBytes(buf, vec, Pack(AT_NULL));
    EndAux(m0, m2, buf[..], vec0, vec, str, vstr, auxv, pht);
  }

  lemma StartAux(m: seq<byte>, vec: nat, str: nat, at: nat, auxv: seq<Aux>, pht: seq<byte>)
    requires vec <= |m|
    ensures OnlyIn(m, m, vec, vec, str, str + |pht|) && Holds(m, vec, AuxBytes(auxv, at, 0)) && Headers(auxv, 0) == 0
  {
  }

  lemma NextEntry(m0: seq<byte>, m1: seq<byte>, m2: seq<byte>, vec0: nat, vec: nat, str: nat, at: nat,
                  auxv: seq<Aux>, i: nat, pht: seq<byte>)
    requires i < |auxv| && vec == vec0 + 8 * i && vec + 8 <= str
    requires OnlyIn(m0, m1, vec0, vec, str, str + |pht|)
    requires OnlyIn(m1, m2, vec, vec + 8, str, if auxv[i].kind == AT_PHDR then str + |pht| else str)
    requires Holds(m1, vec0, AuxBytes(auxv, at, i)) && (Headers(auxv, i) > 0 ==> Holds(m1, str, pht))
    requires Holds(m2, vec, EntryBytes(auxv[i], at)) && (auxv[i].kind == AT_PHDR ==> Holds(m2, str, pht))
    ensures OnlyIn(m0, m2, vec0, vec + 8, str, str + |pht|)
    ensures Holds(m2, vec0, AuxBytes(auxv, at, i + 1)) && (Headers(auxv, i + 1) > 0 ==> Holds(m2, str, pht))
  {
    hide Pack, Holds;
    var hi := if auxv[i].kind == AT_PHDR then str + |pht| else str;
    HoldsKept(m1, m2, vec, vec + 8, str, hi, vec0, AuxBytes(auxv, at, i));
    HoldsJoin(m2, vec0, AuxBytes(auxv, at, i), EntryBytes(auxv[i], at));
    assert AuxBytes(auxv, at, i + 1) == AuxBytes(auxv, at, i) + EntryBytes(auxv[i], at);
    if auxv[i].kind != AT_PHDR && Headers(auxv, i) > 0 {
      HoldsKept(m1, m2, vec, vec + 8, str, hi, str, pht);
    }
  }

  lemma EndAux(m0: seq<byte>, m1: seq<byte>, m2: seq<byte>, vec0: nat, vec: nat, str: nat, at: nat, auxv: seq<Aux>, pht: seq<byte>)
    requires vec == vec0 + 8 * |auxv| && vec + 8 <= str && OnlyIn(m0, m1, vec0, vec, str, str + |pht|) && OnlyIn(m1, m2, vec, vec + 4, 0, 0)
    requires Holds(m1, vec0, AuxBytes(auxv, at, |auxv|)) && (Headers(auxv, |auxv|) > 0 ==> Holds(m1, str, pht))
    ensures OnlyIn(m0, m2, vec0, vec + 8, str, str + |pht|) && Holds(m2, vec0, AuxBytes(auxv, at, |auxv|))
    ensures Headers(auxv, |auxv|) > 0 ==> Holds(m2, str, pht)
  {
    hide Pack, Holds, AuxBytes;
    HoldsKept(m1, m2, vec, vec + 4, 0, 0, vec0, AuxBytes(auxv, at, |auxv|));
    if Headers(auxv, |auxv|) > 0 {
      HoldsKept(m1, m2, vec, vec + 4, 0, 0, str, pht);
    }
  }

  // argc and the three pointers.
  ghost predicate Front(m: seq<byte>, argc: nat, argv: nat, envp: nat, auxv: nat) {
    Holds(m, 0, Pack(argc)) && Holds(m, 4, Pack(argv)) && Holds(m, 8, Pack(envp)) && Holds(m, 12, Pack(auxv))
  }

  // A vector and its strings.
  ghost predicate Vector(m: seq<byte>, vec: nat, str: nat, at: nat, ss: seq<Text>) {
    && Holds(m, vec, PointerBytes(ss, at, |ss|)) && Holds(m, vec + 4 * |ss|, Pack(0))
    && Holds(m, str, TextBytes(ss, |ss|))
  }

  lemma FrontKept(m: seq<byte>, m': seq<byte>, lo: nat, hi: nat, lo': nat, hi': nat, argc: nat, argv: nat, envp: nat, auxv: nat)
    requires OnlyIn(m, m', lo, hi, lo', hi') && lo >= 16 && lo' >= 16 && Front(m, argc, argv, envp, auxv)
    ensures Front(m', argc, argv, envp, auxv)
  {
    hide Pack, Holds, OnlyIn;
    HoldsKept(m, m', lo, hi, lo', hi', 0, Pack(argc));
    HoldsKept(m, m', lo, hi, lo', hi', 4, Pack(argv));
    HoldsKept(m, m', lo, hi, lo', hi', 8, Pack(envp));
    HoldsKept(m, m', lo, hi, lo', hi', 12, Pack(auxv));
  }

  lemma VectorKept(m: seq<byte>, m': seq<byte>, lo: nat, hi: nat, lo': nat, hi': nat, vec: nat, str: nat, at: nat, ss: seq<Text>)
    requires OnlyIn(m, m', lo, hi, lo', hi') && Vector(m, vec, str, at, ss)
    requires vec + 4 * (|ss| + 1) <= lo <= lo' && hi <= str && str + Size(ss, |ss|) <= lo'
    ensures Vector(m', vec, str, at, ss)
  {
    hide Pack, Holds, OnlyIn, PointerBytes, TextBytes, Size;
    HoldsKept(m, m', lo, hi, lo', hi', vec, PointerBytes(ss, at, |ss|));
    HoldsKept(m, m', lo, hi, lo', hi', vec + 4 * |ss|, Pack(0));
    HoldsKept(m, m', lo, hi, lo', hi', str, TextBytes(ss, |ss|));
  }

  // argc and the pointers, written one after the other.
  method PutFront(buf: array<byte>, argc: nat, argv: nat, envp: nat, auxv: nat)
    requires buf.Length >= 16
    modifies buf
    ensures Front(buf[..], argc, argv, envp, auxv)
  {
    hide Pack, Holds;
    PutBytes(buf, 0, Pack(argc));
    ghost var m0 := buf[..];
    PutBytes(buf, 4, Pack(argv));
    ghost var m1 := buf[..];
    PutBytes(buf, 8, Pack(envp));
    ghost var m2 := buf[..];
    PutBytes(buf, 12, Pack(auxv));
    HoldsKept(m0, m1, 4, 8, 0, 0, 0, Pack(argc));
    HoldsKept(m1, m2, 8, 12, 0, 0, 0, Pack(argc));
    HoldsKept(m2, buf[..], 12, 16, 0, 0, 0, Pack(argc));
    HoldsKept(m1, m2, 8, 12, 0, 0, 4, Pack(argv));
    HoldsKept(m2, buf[..], 12, 16, 0, 0, 4, Pack(argv));
    HoldsKept(m2, buf[..], 12, 16, 0, 0, 8, Pack(envp));
  }

  lemma FrontBack(m: seq<byte>, base: nat, argc: nat, argv: nat, envp: nat, auxv: nat)
    requires Front(m, argc, argv, envp, auxv) && argc <= MAX_WORD && argv <= MAX_WORD && envp <= MAX_WORD && auxv <= MAX_WORD
    ensures |m| >= 16 && WordAt(m, base, base) == argc && WordAt(m, base, base + 4) == argv
    ensures WordAt(m, base, base + 8) == envp && WordAt(m, base, base + 12) == auxv
  {
    hide Pack, Holds, Unpack;
    WordBack(m, 0, argc);
    WordBack(m, 4, argv);
    WordBack(m, 8, envp);
    WordBack(m, 12, auxv);
  }

  /** _elf32_load_args: in a buffer of exactly the size that was computed, at whatever address it goes, a
      program that follows the pointers finds argc, every string, the vectors and the header table. */
  method LoadArgs(buf: array<byte>, arglow: nat, argv: seq<Text>, envp: seq<Text>, auxv: seq<Aux>, pht: seq<byte>)
    requires Terminated(argv) && Terminated(envp) && AuxOk(auxv)
    requires buf.Length == ImageSize(argv, envp, auxv, pht) && 0 < arglow && arglow + buf.Length <= MAX_WORD
    modifies buf
    ensures ImageOk(buf[..], arglow, argv, envp, auxv, pht) && Layout(buf[..], arglow, argv, envp, auxv)
  {
    hide Front, Vector, Holds, PointersTo, HeadersTo, AuxBytes, OnlyIn, Size, Terminated, AuxOk, VectorAt, AuxAt, WordAt, PointerBytes, TextBytes, Pack;
    var argc, envc, auxc := |argv|, |envp|, |auxv|;
    RoomForHeaders(Headers(auxv, |auxv|), |pht|);
    var veclen := (argc + 1 + envc + 1) * 4 + (auxc + 1) * 8;
    var vecstart, vvecstart := 16, arglow + 16;
    var strstart, vstrstart := vecstart + veclen, vvecstart + veclen;
    var venvp, vauxv := vvecstart + (argc + 1) * 4, vvecstart + (argc + 1 + envc + 1) * 4;
    PutFront(buf, argc, vvecstart, venvp, vauxv);
    ghost var m3 := buf[..];
    var vec, str, vstr := CopyVector(buf, vecstart, strstart, vstrstart, argv);
    ghost var m4 := buf[..];
    VectorIs(m4, vecstart, strstart, vstrstart, argv);
    FrontKept(m3, m4, vecstart, vec, strstart, str, argc, vvecstart, venvp, vauxv);
    var vec2, str2, vstr2 := CopyVector(buf, vec, str, vstr, envp);
    ghost var m5 := buf[..];
    VectorIs(m5, vec, str, vstr, envp);
    FrontKept(m4, m5, vec, vec2, str, str2, argc, vvecstart, venvp, vauxv);
    VectorKept(m4, m5, vec, vec2, str, str2, vecstart, strstart, vstrstart, argv);
    CopyAux(buf, vec2, str2, vstr2, auxv, pht);
    ghost var m6 := buf[..];
    FrontKept(m5, m6, vec2, strstart, str2, str2 + |pht|, argc, vvecstart, venvp, vauxv);
    VectorKept(m5, m6, vec2, strstart, str2, str2 + |pht|, vecstart, strstart, vstrstart, argv);
    VectorKept(m5, m6, vec2, strstart, str2, str2 + |pht|, vec, str, vstr, envp);
    FrontBack(m6, arglow, argc, vvecstart, venvp, vauxv);
    VectorFound(m6, arglow, vecstart, strstart, argv);
    VectorFound(m6, arglow, vec, str, envp);
    AuxBack(m6, arglow, vec2, str2, auxv, pht);
  }

  lemma VectorIs(m: seq<byte>, vec: nat, str: nat, at: nat, ss: seq<Text>)
    requires Holds(m, vec, PointerBytes(ss, at, |ss|)) && Holds(m, vec + 4 * |ss|, Pack(0)) && Holds(m, str, TextBytes(ss, |ss|))
    ensures Vector(m, vec, str, at, ss)
  {
  }

  lemma VectorFound(m: seq<byte>, base: nat, off: nat, str: nat, ss: seq<Text>)
    requires Terminated(ss) && base > 0 && base + |m| <= MAX_WORD && Vector(m, off, str, base + str, ss)
    ensures VectorAt(m, base, base + off, ss) && PointersTo(m, base, base + off, ss, base + str)
  {
    VectorBack(m, base, off, str, ss);
  }

  lemma RoomForHeaders(n: nat, w: nat)
    ensures n > 0 ==> n * w >= w
  {
  }
}
