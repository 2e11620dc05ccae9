/** The process start-up stack, and the kernel's reader of argument vectors: one writes what the other reads. */
module StartStack {
  import opened Bytes

  const USER_SPACE_MAX: nat := 0x8000_0000_0000
  const MAX_ENTRIES: nat := 64
  const MAX_STR_LEN: nat := 256

  type Text = seq<byte>

  datatype Result<+T> = Ok(value: T) | Err

  // ---------------------------------------------------------------- what a page holds

  /** A NUL-terminated string lies at offset `a`. */
  predicate StringAt(page: seq<byte>, a: nat, s: Text) {
    && a + |s| < |page|
    && (forall j :: 0 <= j < |s| ==> page[a + j] == s[j])
    && page[a + |s|] == 0
  }

  /** The strings lie at the given offsets, all of them at or above `low`. */
  predicate StringsAt(page: seq<byte>, low: nat, addrs: seq<nat>, strs: seq<Text>) {
    |addrs| == |strs| && forall k :: 0 <= k < |strs| ==> low <= addrs[k] && StringAt(page, addrs[k], strs[k])
  }

  function WordAt(page: seq<byte>, o: nat): u64
    requires o + 8 <= |page|
  {
    FromLE64(page[o..o + 8])
  }

  predicate WordsAt(page: seq<byte>, o: nat, words: seq<u64>) {
    o + 8 * |words| <= |page| && forall i :: 0 <= i < |words| ==> WordAt(page, o + 8 * i) == words[i]
  }

  function Plus(base: nat, addrs: seq<nat>): (r: seq<u64>)
    requires forall i :: 0 <= i < |addrs| ==> base + addrs[i] < USER_SPACE_MAX
    ensures |r| == |addrs| && forall i :: 0 <= i < |addrs| ==> r[i] == base + addrs[i]
  {
    seq(|addrs|, i requires 0 <= i < |addrs| => base + addrs[i])
  }

  /** The words at the stack pointer: counts, pointers, terminators and an empty auxiliary vector. */
  function TableWords(argc: nat, ptrs: seq<u64>): (r: seq<u64>)
    requires argc <= |ptrs| && argc < 0x1_0000
    ensures |r| == |ptrs| + 5
  {
    [argc] + ptrs[..argc] + [0] + ptrs[argc..] + [0, 0, 0]
  }

  /** A complete start-up stack for `args` and `envs` with its pointer at offset `o` of the page at `base`. */
  ghost predicate StackAt(page: seq<byte>, base: nat, o: nat, args: seq<Text>, envs: seq<Text>, addrs: seq<nat>) {
    && base + |page| <= USER_SPACE_MAX && |args| < 0x1_0000
    && StringsAt(page, o + 8 * (|args| + |envs| + 5), addrs, args + envs)
    && WordsAt(page, o, TableWords(|args|, Plus(base, addrs)))
  }

  // ---------------------------------------------------------------- writing

  lemma WordSpliced(page: seq<byte>, o: nat, v: u64, p: nat)
    requires o + 8 <= |page| && p + 8 <= |page|
    ensures p == o ==> WordAt(Splice(page, o, LE64(v)), p) == v
    ensures p + 8 <= o || o + 8 <= p ==> WordAt(Splice(page, o, LE64(v)), p) == WordAt(page, p)
  {
    hide FromLE64, LE64;
    LE64RoundTrip(v);
    var page' := Splice(page, o, LE64(v));
    if p == o {
      assert page'[o..o + 8] == LE64(v);
    } else if p + 8 <= o || o + 8 <= p {
      assert page'[p..p + 8] == page[p..p + 8];
    }
  }

  /** Write the next word of a table that starts at `o` and has the words `done` so far. */
  method PushWord(page: array<byte>, w: nat, v: u64, ghost o: nat, ghost done: seq<u64>)
    requires WordsAt(page[..], o, done) && w == o + 8 * |done| && w + 8 <= page.Length
    modifies page
    ensures WordsAt(page[..], o, done + [v])
    ensures forall k :: 0 <= k < page.Length && !(w <= k < w + 8) ==> page[k] == old(page[k])
  {
    hide FromLE64, LE64;
    var bytes := LE64(v);
    ghost var before := page[..];
    forall k | 0 <= k < 8 {
      page[w + k] := bytes[k];
    }
    assert page[..] == Splice(before, w, LE64(v));
    WordSpliced(before, w, v, w);
    forall i | 0 <= i < |done| ensures WordAt(page[..], o + 8 * i) == done[i] {
      WordSpliced(before, w, v, o + 8 * i);
    }
  }

  /** Copy one string and its terminator to offset `off`. */
  method CopyString(page: array<byte>, off: nat, s: Text)
    requires off + |s| < page.Length
    modifies page
    ensures StringAt(page[..], off, s)
    ensures forall k :: 0 <= k < page.Length && !(off <= k <= off + |s|) ==> page[k] == old(page[k])
  {
    forall j | 0 <= j < |s| {
      page[off + j] := s[j];
    }
    page[off + |s|] := 0;
  }

  /** Strings above every byte that changed stay where they are. */
  lemma StringsKept(page: seq<byte>, page': seq<byte>, low: nat, addrs: seq<nat>, strs: seq<Text>)
    requires StringsAt(page, low, addrs, strs) && |page'| == |page|
    requires forall k :: low <= k < |page| ==> page'[k] == page[k]
    ensures StringsAt(page', low, addrs, strs)
  {
    forall k | 0 <= k < |strs| ensures StringAt(page', addrs[k], strs[k]) {
      assert StringAt(page, addrs[k], strs[k]);
    }
  }

  lemma NoStrings(page: seq<byte>, low: nat)
    ensures StringsAt(page, low, [], []) && Space([]) == 0
  {}

  lemma StringsMore(page: seq<byte>, page': seq<byte>, low: nat, a: nat, addrs: seq<nat>, strs: seq<Text>, i: nat)
    requires i < |strs| && StringsAt(page, low, addrs, strs[..i]) && |page'| == |page| && a <= low
    requires forall k :: low <= k < |page| ==> page'[k] == page[k]
    requires StringAt(page', a, strs[i])
    ensures StringsAt(page', a, addrs + [a], strs[..i + 1]) && a < |page'|
  {
    StringsKept(page, page', low, addrs, strs[..i]);
    assert strs[..i + 1] == strs[..i] + [strs[i]];
  }

  lemma SpaceStep(strs: seq<Text>, i: nat)
    requires i < |strs|
    ensures Space(strs[..i + 1]) == Space(strs[..i]) + |strs[i]| + 1 <= Space(strs)
  {
    assert strs[..i + 1][..i] == strs[..i];
    SpaceGrows(strs, i + 1);
  }

  /** First half: the strings, last one lowest, with headroom left below. */
  method CopyStrings(page: array<byte>, base: u64, strs: seq<Text>)
    returns (off: nat, ptrs: seq<u64>, ok: bool, ghost addrs: seq<nat>)
    requires base + page.Length <= USER_SPACE_MAX && page.Length >= 256
    modifies page
    ensures ok ==> 256 <= off <= page.Length && StringsAt(page[..], off, addrs, strs)
    ensures ok ==> (forall i :: 0 <= i < |addrs| ==> addrs[i] < page.Length) && ptrs == Plus(base, addrs)
    ensures ok <==> Space(strs) + 256 <= page.Length || strs == []
    ensures ok ==> off == page.Length - Space(strs) && |addrs| == |strs|
  {
    hide StringsAt, StringAt, Space;
    off := page.Length;
    ptrs, addrs := [], [];
    NoStrings(page[..], off);
    for i := 0 to |strs|
      invariant 256 <= off <= page.Length && off == page.Length - Space(strs[..i])
      invariant StringsAt(page[..], off, addrs, strs[..i])
      invariant forall k :: 0 <= k < |addrs| ==> addrs[k] < page.Length
      invariant ptrs == Plus(base, addrs) && |addrs| == i
    {
      SpaceStep(strs, i);
      var need := |strs[i]| + 1;
      if need + 256 > off {
        return off, ptrs, false, addrs;
      }
      ghost var before := page[..];
      CopyString(page, off - need, strs[i]);
      StringsMore(before, page[..], off, off - need, addrs, strs, i);
      off := off - need;
      ptrs := ptrs + [base + off];
      addrs := addrs + [off];
    }
    assert strs[..|strs|] == strs;
    ok := true;
  }

  /** Bytes that the strings take up, terminators included. */
  function Space(strs: seq<Text>): nat {
    if strs == [] then 0 else Space(strs[..|strs| - 1]) + |strs[|strs| - 1]| + 1
  }

  lemma {:induction false} SpaceGrows(strs: seq<Text>, n: nat)
    requires n <= |strs|
    ensures Space(strs[..n]) <= Space(strs)
    decreases |strs|
  {
    if n < |strs| {
      assert strs[..|strs| - 1][..n] == strs[..n];
      SpaceGrows(strs[..|strs| - 1], n);
    } else {
      assert strs[..n] == strs;
    }
  }

  /** Where the table starts, given where the strings start: padded so that the result is 16-byte aligned. */
  function TableOffset(off: nat, words: nat): int {
    off - off % 16 - (if words % 2 != 0 then 8 else 0) - 8 * words
  }

  /** `q`, `p` and `k` count 4096s, 16s and pairs of words. */
  lemma SixteenSum(q: int, p: int, k: int)
    ensures (4096 * q + 16 * p - 16 * k) % 16 == 0
  {
    assert 4096 * q + 16 * p - 16 * k == 16 * (256 * q + p - k);
  }

  lemma Padded(off: nat, words: nat)
    ensures TableOffset(off, words) == 16 * (off / 16) - 16 * ((words + 1) / 2)
    ensures TableOffset(off, words) + 8 * words <= off
  {
    assert words == 2 * (words / 2) + words % 2;
    assert (words + 1) / 2 == words / 2 + words % 2;
  }

  lemma Aligned(off: nat, words: nat, base: nat)
    requires base % 4096 == 0
    ensures (base + TableOffset(off, words)) % 16 == 0 && TableOffset(off, words) + 8 * words <= off
    ensures TableOffset(off, words) == off - off % 16 - (if words % 2 != 0 then 8 else 0) - words * 8
  {
    Padded(off, words);
    SixteenSum(base / 4096, off / 16, (words + 1) / 2);
    assert base == 4096 * (base / 4096);
  }

  method SetupUserStack(page: array<byte>, base: u64, args: seq<Text>, envs: seq<Text>)
    returns (r: Result<nat>, ghost addrs: seq<nat>)
    requires base + page.Length <= USER_SPACE_MAX && page.Length == 4096 && base % 4096 == 0
    modifies page
    ensures r.Ok? ==> base <= r.value && StackAt(page[..], base, r.value - base, args, envs, addrs)
    ensures r.Ok? ==> r.value % 16 == 0
    ensures r.Ok? ==>
      && Space(args + envs) <= page.Length
      && r.value == base + TableOffset(page.Length - Space(args + envs), |args| + |envs| + 5)
    ensures r.Ok? <==> (args + envs == [] || Space(args + envs) + 256 <= page.Length)
                       && TableOffset(page.Length - Space(args + envs), |args| + |envs| + 5) >= 0
  {
    hide WordsAt, StringsAt, Plus, TableWords, Space, TableOffset;
    var off, ptrs, ok;
    off, ptrs, ok, addrs := CopyStrings(page, base, args + envs);
    if !ok {
      return Err, addrs;
    }
    ghost var low := off;
    var argc, nenv := |args|, |envs|;
    var words := 1 + argc + 1 + nenv + 1 + 2;
    Aligned(off, words, base);
    off := off - off % 16;
    if words % 2 != 0 {
      off := off - 8;
    }
    var tableBytes := words * 8;
    if tableBytes > off {
      return Err, addrs;
    }
    var o := off - tableBytes;
    ghost var strings := page[..];
    WriteTable(page, o, argc, ptrs);
    StringsKept(strings, page[..], low, addrs, args + envs);
    StringsLower(page[..], low, o + tableBytes, addrs, args + envs);
    return Ok(base + o), addrs;
  }

  lemma StringsLower(page: seq<byte>, low: nat, low': nat, addrs: seq<nat>, strs: seq<Text>)
    requires StringsAt(page, low, addrs, strs) && low' <= low
    ensures StringsAt(page, low', addrs, strs)
  {}

  /** Second half: the words of the table, in the order of the start-up stack. */
  method WriteTable(page: array<byte>, o: nat, argc: nat, ptrs: seq<u64>)
    requires argc <= |ptrs| && argc < 0x1_0000 && o + 8 * (|ptrs| + 5) <= page.Length
    modifies page
    ensures WordsAt(page[..], o, TableWords(argc, ptrs))
    ensures forall k :: 0 <= k < page.Length && !(o <= k < o + 8 * (|ptrs| + 5)) ==> page[k] == old(page[k])
  {
    hide WordAt;
    ghost var done: seq<u64> := [];
    var w := o;
    PushWord(page, w, argc, o, done);
    w, done := w + 8, done + [argc];
    for i := 0 to argc
      invariant w == o + 8 * (1 + i) && done == [argc as u64] + ptrs[..i] && WordsAt(page[..], o, done)
      invariant forall k :: 0 <= k < page.Length && !(o <= k < w) ==> page[k] == old(page[k])
    {
      PushWord(page, w, ptrs[i], o, done);
      w, done := w + 8, done + [ptrs[i]];
    }
    PushWord(page, w, 0, o, done);
    w, done := w + 8, done + [0];
    for i := argc to |ptrs|
      invariant w == o + 8 * (2 + i) && done == [argc as u64] + ptrs[..argc] + [0] + ptrs[argc..i]
          && WordsAt(page[..], o, done)
      invariant forall k :: 0 <= k < page.Length && !(o <= k < w) ==> page[k] == old(page[k])
    {
      PushWord(page, w, ptrs[i], o, done);
      w, done := w + 8, done + [ptrs[i]];
    }
    for i := 0 to 3
      invariant w == o + 8 * (2 + |ptrs| + i) && WordsAt(page[..], o, done)
      invariant done == [argc as u64] + ptrs[..argc] + [0] + ptrs[argc..] + [0, 0, 0][..i]
      invariant forall k :: 0 <= k < page.Length && !(o <= k < w) ==> page[k] == old(page[k])
    {
      PushWord(page, w, 0, o, done);
      w, done := w + 8, done + [0];
    }
    assert done == TableWords(argc, ptrs);
  }

  // ---------------------------------------------------------------- reading

  predicate IsUserPointer(ptr: nat, len: nat) { ptr < USER_SPACE_MAX && ptr + len <= USER_SPACE_MAX }

  /** What the reader demands of a pointer: nothing when the caller is in the kernel. */
  predicate Allowed(validate: bool, ptr: nat, len: nat) { !validate || IsUserPointer(ptr, len) }

  /** The 64-bit word at an address of user memory. */
  function Word(mem: nat -> byte, a: nat): u64 { FromLE64(seq<byte>(8, i requires 0 <= i < 8 => mem(a + i))) }

  /** How far a string reaches from `a`: to its NUL, to the limit, or to the end of user space. */
  function CStringLength(validate: bool, mem: nat -> byte, a: nat, len: nat): (n: nat)
    requires len <= MAX_STR_LEN
    ensures len <= n <= MAX_STR_LEN
    decreases MAX_STR_LEN - len
  {
    if len == MAX_STR_LEN || !Allowed(validate, a + len, 1) || mem(a + len) == 0 then len
      else CStringLength(validate, mem, a, len + 1)
  }

  function Chars(mem: nat -> byte, a: nat, n: nat): Text { seq<byte>(n, i requires 0 <= i => mem(a + i)) }

  function CString(validate: bool, mem: nat -> byte, a: nat): Text {
    Chars(mem, a, CStringLength(validate, mem, a, 0))
  }

  /** The strings that the array of pointers at `base` leads to, from entry `i` on. */
  function CStrings(validate: bool, mem: nat -> byte, base: nat, i: nat, utf8: Text -> bool): (r: seq<Text>)
    requires i <= MAX_ENTRIES
    decreases MAX_ENTRIES - i
  {
    if i == MAX_ENTRIES || !Allowed(validate, base + 8 * i, 8) then []
    else
      var p := Word(mem, base + 8 * i);
      if p == 0 || !Allowed(validate, p, 1) then []
      else
        var s := CString(validate, mem, p);
        [if utf8(s) then s else []] + CStrings(validate, mem, base, i + 1, utf8)
  }

  /** Walk one string. */
  method ReadCString(validate: bool, mem: nat -> byte, p: nat) returns (s: Text)
    ensures s == CString(validate, mem, p)
  {
    var len := 0;
    while len < MAX_STR_LEN
      invariant len <= MAX_STR_LEN && CStringLength(validate, mem, p, len) == CStringLength(validate, mem, p, 0)
    {
      if !Allowed(validate, p + len, 1) || mem(p + len) == 0 {
        break;
      }
      len := len + 1;
    }
    s := Chars(mem, p, len);
  }

  /** Entry `i` of the array: nothing more, or one more string. */
  lemma NextEntry(validate: bool, mem: nat -> byte, base: nat, i: nat, utf8: Text -> bool)
    requires i <= MAX_ENTRIES
    ensures var p := Word(mem, base + 8 * i);
            if i == MAX_ENTRIES || !Allowed(validate, base + 8 * i, 8) || p == 0 || !Allowed(validate, p, 1)
            then CStrings(validate, mem, base, i, utf8) == []
            else CStrings(validate, mem, base, i, utf8) ==
                   [if utf8(CString(validate, mem, p)) then CString(validate, mem, p)
                     else []] + CStrings(validate, mem, base, i + 1, utf8)
  {}

  /** A caller in user space gets nothing for an array past its half, and a list ends at a string past it. */
  lemma KernelRefused(mem: nat -> byte, base: nat, i: nat, utf8: Text -> bool)
    requires i <= MAX_ENTRIES
    ensures base + 8 * i + 8 > 0x8000_0000_0000 ==> CStrings(true, mem, base, i, utf8) == []
    ensures Word(mem, base + 8 * i) >= 0x8000_0000_0000 ==> CStrings(true, mem, base, i, utf8) == []
  {
    hide Word, CString, CStrings;
    NextEntry(true, mem, base, i, utf8);
  }

  /** The kernel itself is refused nothing: the list ends at a null pointer or at the limit alone. */
  lemma KernelTrusted(mem: nat -> byte, base: nat, i: nat, utf8: Text -> bool)
    requires i < MAX_ENTRIES
    ensures CStrings(false, mem, base, i, utf8) == [] <==> Word(mem, base + 8 * i) == 0
  {
    hide Word, CString, CStrings;
    NextEntry(false, mem, base, i, utf8);
  }

  /** A string read for a caller in user space ends where that does. */
  lemma {:induction false} StringInside(mem: nat -> byte, a: nat, len: nat)
    requires len <= MAX_STR_LEN && a + len <= 0x8000_0000_0000
    ensures a + CStringLength(true, mem, a, len) <= 0x8000_0000_0000
    decreases MAX_STR_LEN - len
  {
    if len < MAX_STR_LEN && a + len < 0x8000_0000_0000 { StringInside(mem, a, len + 1); }
  }

  method CopyUserCstrArray(validate: bool, mem: nat -> byte, base: nat, utf8: Text -> bool) returns (out: seq<Text>)
    ensures out == if base == 0 then [] else CStrings(validate, mem, base, 0, utf8)
  {
    hide CString, Word, CStrings;
    NextEntry(validate, mem, base, 0, utf8);
    out := [];
    if base == 0 || !Allowed(validate, base, 8) {
      return;
    }
    for i := 0 to MAX_ENTRIES
      invariant CStrings(validate, mem, base, 0, utf8) == out + CStrings(validate, mem, base, i, utf8)
    {
      NextEntry(validate, mem, base, i, utf8);
      if !Allowed(validate, base + 8 * i, 8) {
        return;
      }
      var p := Word(mem, base + 8 * i);
      if p == 0 || !Allowed(validate, p, 1) {
        return;
      }
      var s := ReadCString(validate, mem, p);
      var entry := if utf8(s) then s else [];
      assert out + ([entry] + CStrings(validate, mem, base, i + 1, utf8)) ==
        (out + [entry]) + CStrings(validate, mem, base, i + 1, utf8);
      out := out + [entry];
    }
    NextEntry(validate, mem, base, MAX_ENTRIES, utf8);
  }

  // ---------------------------------------------------------------- what was written is what is read

  ghost predicate Shows(mem: nat -> byte, base: nat, page: seq<byte>) {
    forall k :: 0 <= k < |page| ==> mem(base + k) == page[k]
  }

  /** What the reader can give back of a string, and of a list of them, within its two limits. */
  function Clipped(s: Text, utf8: Text -> bool): Text {
    var c := s[..Min(|s|, MAX_STR_LEN)];
    if utf8(c) then c else []
  }

  function ClippedFrom(strs: seq<Text>, i: nat, utf8: Text -> bool): (r: seq<Text>)
    requires i <= |strs|
    decreases |strs| - i
  {
    if i == |strs| || i >= MAX_ENTRIES then [] else [Clipped(strs[i], utf8)] + ClippedFrom(strs, i + 1, utf8)
  }

  lemma {:induction false} LengthReads(validate: bool, mem: nat -> byte, base: nat, page: seq<byte>, a: nat, s: Text,
                                       len: nat)
    requires Shows(mem, base, page) && base + |page| <= USER_SPACE_MAX && StringAt(page, a, s) && NulFree(s)
    requires len <= |s| && len <= MAX_STR_LEN
    ensures CStringLength(validate, mem, base + a, len) == Min(|s|, MAX_STR_LEN)
    decreases |s| - len
  {
    assert mem(base + (a + len)) == page[a + len];
    assert base + a + len == base + (a + len);
    assert page[a + len] == if len < |s| then s[len] else 0;
    if len < |s| && len < MAX_STR_LEN { LengthReads(validate, mem, base, page, a, s, len + 1); }
  }

  lemma CharReads(mem: nat -> byte, base: nat, page: seq<byte>, a: nat, s: Text, j: nat)
    requires Shows(mem, base, page) && StringAt(page, a, s) && j < |s|
    ensures mem(base + a + j) == s[j]
  {
    assert base + a + j == base + (a + j);
  }

  lemma StringReads(validate: bool, mem: nat -> byte, base: nat, page: seq<byte>, a: nat, s: Text)
    requires Shows(mem, base, page) && base + |page| <= USER_SPACE_MAX && StringAt(page, a, s) && NulFree(s)
    ensures CString(validate, mem, base + a) == s[..Min(|s|, MAX_STR_LEN)]
  {
    hide Shows, StringAt, NulFree, CStringLength;
    LengthReads(validate, mem, base, page, a, s, 0);
    forall j | 0 <= j < Min(|s|, MAX_STR_LEN) ensures CString(validate, mem, base + a)[j] == s[j] {
      CharReads(mem, base, page, a, s, j);
    }
  }

  lemma WordReads(mem: nat -> byte, base: nat, page: seq<byte>, o: nat)
    requires Shows(mem, base, page) && o + 8 <= |page|
    ensures Word(mem, base + o) == WordAt(page, o)
  {
    hide FromLE64;
    var w := seq<byte>(8, i requires 0 <= i < 8 => mem(base + o + i));
    forall i | 0 <= i < 8 ensures w[i] == page[o + i] {
      assert base + o + i == base + (o + i);
    }
    assert w == page[o..o + 8];
  }

  /** An array of pointers to strings, closed by a null pointer, at offset `o` of the page. */
  ghost predicate ArrayAt(page: seq<byte>, base: nat, o: nat, addrs: seq<nat>, strs: seq<Text>) {
    && |addrs| == |strs| && o + 8 * (|strs| + 1) <= |page|
    && (forall i :: 0 <= i < |strs| ==>
          StringAt(page, addrs[i], strs[i]) && NulFree(strs[i]) && WordAt(page, o + 8 * i) == base + addrs[i])
    && WordAt(page, o + 8 * |strs|) == 0
  }

  lemma EntryReads(validate: bool, mem: nat -> byte, base: nat, page: seq<byte>, o: nat, addrs: seq<nat>,
                   strs: seq<Text>, i: nat)
    requires Shows(mem, base, page) && 0 < base && base + |page| <= USER_SPACE_MAX
        && ArrayAt(page, base, o, addrs, strs)
    requires i <= |strs|
    ensures Allowed(validate, base + o + 8 * i, 8)
    ensures Word(mem, base + o + 8 * i) == if i < |strs| then base + addrs[i] else 0
    ensures i < |strs| ==> Allowed(validate, base + addrs[i], 1) && base + addrs[i] != 0
    ensures i < |strs| ==> CString(validate, mem, base + addrs[i]) == strs[i][..Min(|strs[i]|, MAX_STR_LEN)]
  {
    hide Word, CString, WordAt;
    WordReads(mem, base, page, o + 8 * i);
    assert base + o + 8 * i == base + (o + 8 * i);
    if i < |strs| {
      StringReads(validate, mem, base, page, addrs[i], strs[i]);
    }
  }

  lemma {:induction false} ArrayReads(validate: bool, mem: nat -> byte, base: nat, page: seq<byte>, o: nat,
                                      addrs: seq<nat>, strs: seq<Text>, i: nat, utf8: Text -> bool)
    requires Shows(mem, base, page) && 0 < base && base + |page| <= USER_SPACE_MAX
        && ArrayAt(page, base, o, addrs, strs)
    requires i <= |strs| && i <= MAX_ENTRIES
    ensures CStrings(validate, mem, base + o, i, utf8) == ClippedFrom(strs, i, utf8)
    decreases |strs| - i
  {
    hide Word, CString, CStrings, Shows, ArrayAt, Allowed;
    EntryReads(validate, mem, base, page, o, addrs, strs, i);
    NextEntry(validate, mem, base + o, i, utf8);
    if i < MAX_ENTRIES && i < |strs| {
      ArrayReads(validate, mem, base, page, o, addrs, strs, i + 1, utf8);
    }
  }

  /**
   * Round trip: reading the argv and envp arrays of a start-up stack gives back the arguments and the
   * environment that were written, up to the reader's limits on their number and length.
   */
  lemma StackReadsBack(validate: bool, mem: nat -> byte, base: nat, page: seq<byte>, o: nat, args: seq<Text>,
                       envs: seq<Text>, addrs: seq<nat>, utf8: Text -> bool)
    requires Shows(mem, base, page) && 0 < base && StackAt(page, base, o, args, envs, addrs)
    requires forall s :: s in args + envs ==> NulFree(s)
    ensures Word(mem, base + o) == |args|
    ensures CStrings(validate, mem, base + (o + 8), 0, utf8) == ClippedFrom(args, 0, utf8)
    ensures CStrings(validate, mem, base + (o + 8 * (|args| + 2)), 0, utf8) == ClippedFrom(envs, 0, utf8)
  {
    hide Word, CStrings, ClippedFrom, WordAt, Shows, StackAt, NulFree, ArrayAt;
    var n := |args|;
    StackCount(base, page, o, args, envs, addrs);
    WordReads(mem, base, page, o);
    StackArrays(base, page, o, args, envs, addrs);
    ArrayReads(validate, mem, base, page, o + 8, addrs[..n], args, 0, utf8);
    ArrayReads(validate, mem, base, page, o + 8 * (n + 2), addrs[n..], envs, 0, utf8);
    assert base + o + 8 == base + (o + 8);
  }

  lemma StackCount(base: nat, page: seq<byte>, o: nat, args: seq<Text>, envs: seq<Text>, addrs: seq<nat>)
    requires StackAt(page, base, o, args, envs, addrs)
    ensures base + |page| <= USER_SPACE_MAX && o + 8 <= |page| && |addrs| == |args| + |envs|
    ensures WordAt(page, o) == |args|
  {
    hide WordAt;
    var words := TableWords(|args|, Plus(base, addrs));
    assert WordAt(page, o + 8 * 0) == words[0];
  }

  lemma StackArrays(base: nat, page: seq<byte>, o: nat, args: seq<Text>, envs: seq<Text>, addrs: seq<nat>)
    requires StackAt(page, base, o, args, envs, addrs) && forall s :: s in args + envs ==> NulFree(s)
    ensures |addrs| == |args| + |envs|
    ensures ArrayAt(page, base, o + 8, addrs[..|args|], args)
    ensures ArrayAt(page, base, o + 8 * (|args| + 2), addrs[|args|..], envs)
  {
    hide WordAt, NulFree, StringAt;
    var n, all := |args|, args + envs;
    forall i | 0 <= i < n
      ensures StringAt(page, addrs[..n][i], args[i]) && NulFree(args[i])
          && WordAt(page, o + 8 + 8 * i) == base + addrs[..n][i]
    {
      assert all[i] == args[i] && all[i] in all;
      StackPointer(base, page, o, args, envs, addrs, i);
    }
    forall i | 0 <= i < |envs|
      ensures StringAt(page, addrs[n..][i], envs[i]) && NulFree(envs[i])
      ensures WordAt(page, o + 8 * (n + 2) + 8 * i) == base + addrs[n..][i]
    {
      assert all[n + i] == envs[i] && all[n + i] in all;
      StackPointer(base, page, o, args, envs, addrs, n + i);
    }
    StackEnds(base, page, o, args, envs, addrs);
  }

  lemma StackPointer(base: nat, page: seq<byte>, o: nat, args: seq<Text>, envs: seq<Text>, addrs: seq<nat>, i: nat)
    requires StackAt(page, base, o, args, envs, addrs) && i < |args| + |envs|
    ensures var w := if i < |args| then i + 1 else i + 2;
            |addrs| == |args| + |envs| && o + 8 * w + 8 <= |page| && WordAt(page, o + 8 * w) == base + addrs[i]
  {
    hide WordAt;
    var w := if i < |args| then i + 1 else i + 2;
    var words := TableWords(|args|, Plus(base, addrs));
    assert words[w] == base + addrs[i];
    assert WordAt(page, o + 8 * w) == words[w];
  }

  /** The terminators of argv and envp, and the pair of zeros that is the whole auxiliary vector. */
  lemma StackEnds(base: nat, page: seq<byte>, o: nat, args: seq<Text>, envs: seq<Text>, addrs: seq<nat>)
    requires StackAt(page, base, o, args, envs, addrs)
    ensures var n, m := |args|, |envs|;
            && o + 8 * (n + m + 5) <= |page|
            && WordAt(page, o + 8 * (n + 1)) == 0 && WordAt(page, o + 8 * (n + m + 2)) == 0
            && WordAt(page, o + 8 * (n + m + 3)) == 0 && WordAt(page, o + 8 * (n + m + 4)) == 0
  {
    hide WordAt;
    var n, m := |args|, |envs|;
    var words := TableWords(n, Plus(base, addrs));
    assert words[n + 1] == 0 && words[n + m + 2] == 0 && words[n + m + 3] == 0 && words[n + m + 4] == 0;
    assert WordAt(page, o + 8 * (n + 1)) == words[n + 1];
    assert WordAt(page, o + 8 * (n + m + 2)) == words[n + m + 2];
    assert WordAt(page, o + 8 * (n + m + 3)) == words[n + m + 3];
    assert WordAt(page, o + 8 * (n + m + 4)) == words[n + m + 4];
  }

  /** The list stays within the reader's limits. */
  predicate WithinLimits(strs: seq<Text>) {
    |strs| <= MAX_ENTRIES && forall k :: 0 <= k < |strs| ==> |strs[k]| <= MAX_STR_LEN
  }

  /** Within the limits nothing is lost. */
  lemma {:induction false} ClippedWhole(strs: seq<Text>, i: nat, utf8: Text -> bool)
    requires i <= |strs| && WithinLimits(strs) && forall k :: 0 <= k < |strs| ==> utf8(strs[k])
    ensures ClippedFrom(strs, i, utf8) == strs[i..]
    decreases |strs| - i
  {
    if i < |strs| {
      ClippedWhole(strs, i + 1, utf8);
      assert strs[i][..|strs[i]|] == strs[i];
      assert strs[i..] == [strs[i]] + strs[i + 1..];
    }
  }

  /** Beyond the limit on entries something always is. */
  lemma {:induction false} ClippedCount(strs: seq<Text>, i: nat, utf8: Text -> bool)
    requires i <= |strs|
    ensures |ClippedFrom(strs, i, utf8)| == if i >= MAX_ENTRIES then 0 else Min(|strs|, MAX_ENTRIES) - i
    decreases |strs| - i
  {
    if i < |strs| && i < MAX_ENTRIES { ClippedCount(strs, i + 1, utf8); }
  }

  lemma {:induction false} ClippedAt(strs: seq<Text>, i: nat, k: nat, utf8: Text -> bool)
    requires i <= k < |strs| && k < MAX_ENTRIES
    ensures k - i < |ClippedFrom(strs, i, utf8)| && ClippedFrom(strs, i, utf8)[k - i] == Clipped(strs[k], utf8)
    decreases k - i
  {
    if i < k { ClippedAt(strs, i + 1, k, utf8); }
  }

  /** The reader gives back exactly what was written if and only if it is within the limits. */
  lemma ReadsBackIff(strs: seq<Text>, utf8: Text -> bool)
    requires forall k :: 0 <= k < |strs| ==> utf8(strs[k])
    ensures ClippedFrom(strs, 0, utf8) == strs <==> WithinLimits(strs)
  {
    hide ClippedFrom;
    if WithinLimits(strs) {
      ClippedWhole(strs, 0, utf8);
      assert strs[0..] == strs;
    } else if |strs| > MAX_ENTRIES {
      ClippedCount(strs, 0, utf8);
    } else {
      var k :| 0 <= k < |strs| && |strs[k]| > MAX_STR_LEN;
      ClippedAt(strs, 0, k, utf8);
    }
  }
}
