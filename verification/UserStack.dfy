/** kernel/proc/usermode.c: the initial user stack, and how the C library's entry point reads it back. */
module UserStack {
  import opened Common

  type Byte = x: int | 0 <= x < 256

  const EXEC_MAX_ARGS: nat := 64

  // ---- 64-bit words in memory, least significant byte first ----

  function WordBytes(x: nat, n: nat): (b: seq<Byte>)
    ensures |b| == n
  {
    if n == 0 then [] else [x % 256] + WordBytes(x / 256, n - 1)
  }

  function WordValue(b: seq<Byte>): nat {
    if b == [] then 0 else b[0] + 256 * WordValue(b[1..])
  }

  lemma {:induction false} WordRoundTrip(x: nat, n: nat)
    requires x < Power256(n)
    ensures WordValue(WordBytes(x, n)) == x
  {
    if n > 0 {
      WordRoundTrip(x / 256, n - 1);
      assert WordBytes(x, n)[1..] == WordBytes(x / 256, n - 1);
    }
  }

  lemma Word64RoundTrip(x: nat)
    requires x < 0x1_0000_0000_0000_0000
    ensures WordValue(WordBytes(x, 8)) == x
  {
    assert Power256(4) == 0x1_0000_0000;
    WordRoundTrip(x, 8);
  }

  /** The word at address a. */
  function Word(m: seq<Byte>, a: nat): nat
    requires a + 8 <= |m|
  {
    WordValue(m[a..a + 8])
  }

  /** The word at a holds x. */
  ghost predicate HasWord(m: seq<Byte>, a: nat, x: nat) {
    a + 8 <= |m| && Word(m, a) == x
  }

  // ---- Strings in memory ----

  /** A C string without its terminator. */
  ghost predicate NulFree(s: seq<Byte>) {
    forall i | 0 <= i < |s| :: s[i] != 0
  }

  /** The bytes from a up to the first NUL. */
  function CString(m: seq<Byte>, a: nat): seq<Byte>
    decreases |m| - a
  {
    if a >= |m| || m[a] == 0 then [] else [m[a]] + CString(m, a + 1)
  }

  /** The string s and its terminator are at a. */
  ghost predicate HasString(m: seq<Byte>, a: nat, s: seq<Byte>) {
    a + |s| < |m| && m[a..a + |s|] == s && m[a + |s|] == 0
  }

  lemma {:induction false} ReadBack(m: seq<Byte>, a: nat, s: seq<Byte>)
    requires HasString(m, a, s) && NulFree(s)
    ensures CString(m, a) == s
    decreases |s|
  {
    if s == [] {
    } else {
      assert m[a] == s[0];
      assert m[a + 1..a + 1 + |s[1..]|] == s[1..];
      ReadBack(m, a + 1, s[1..]);
    }
  }

  /** The bytes the strings take, terminators included. */
  function Bytes(strs: seq<seq<Byte>>): nat {
    if strs == [] then 0 else |strs[0]| + 1 + Bytes(strs[1..])
  }

  // ---- Writing ----

  /** Only addresses from lo up to hi changed. */
  ghost predicate Within(m: seq<Byte>, m': seq<Byte>, lo: nat, hi: nat) {
    |m'| == |m| && forall k | 0 <= k < |m| && !(lo <= k < hi) :: m'[k] == m[k]
  }

  lemma WordFrame(m: seq<Byte>, m': seq<Byte>, lo: nat, hi: nat, a: nat, x: nat)
    requires Within(m, m', lo, hi) && HasWord(m, a, x) && (a + 8 <= lo || hi <= a)
    ensures HasWord(m', a, x)
  {
    assert m'[a..a + 8] == m[a..a + 8];
  }

  lemma StringFrame(m: seq<Byte>, m': seq<Byte>, lo: nat, hi: nat, a: nat, s: seq<Byte>)
    requires Within(m, m', lo, hi) && HasString(m, a, s) && (a + |s| < lo || hi <= a)
    ensures HasString(m', a, s)
  {
    assert m'[a..a + |s|] == m[a..a + |s|];
  }

  method StoreWord(mem: array<Byte>, a: nat, x: nat)
    requires a + 8 <= mem.Length && x < 0x1_0000_0000_0000_0000
    modifies mem
    ensures HasWord(mem[..], a, x) && Within(old(mem[..]), mem[..], a, a + 8)
  {
    hide WordValue;
    var b := WordBytes(x, 8);
    for i := 0 to 8
      invariant mem[a..a + i] == b[..i] && Within(old(mem[..]), mem[..], a, a + 8)
    {
      mem[a + i] := b[i];
    }
    Word64RoundTrip(x);
    assert mem[..][a..a + 8] == b;
  }

  /** `kmemcpy` of a string with its terminator. */
  method CopyString(mem: array<Byte>, a: nat, s: seq<Byte>)
    requires a + |s| < mem.Length
    modifies mem
    ensures HasString(mem[..], a, s) && Within(old(mem[..]), mem[..], a, a + |s| + 1)
  {
    for i := 0 to |s|
      invariant mem[a..a + i] == s[..i] && Within(old(mem[..]), mem[..], a, a + |s| + 1)
    {
      mem[a + i] := s[i];
    }
    mem[a + |s|] := 0;
  }

  /** The strings are at the addresses ptrs, all between lo and hi. */
  ghost predicate AllStrings(m: seq<Byte>, ptrs: seq<nat>, strs: seq<seq<Byte>>, lo: nat, hi: nat) {
    && |ptrs| == |strs|
    && forall j | 0 <= j < |strs| :: HasString(m, ptrs[j], strs[j]) && lo <= ptrs[j] && ptrs[j] + |strs[j]| < hi
  }

  lemma StringsFrame(m: seq<Byte>, m': seq<Byte>, from: nat, to: nat, ptrs: seq<nat>, strs: seq<seq<Byte>>, lo: nat,
                     hi: nat)
    requires Within(m, m', from, to) && AllStrings(m, ptrs, strs, lo, hi) && (to <= lo || hi <= from)
    ensures AllStrings(m', ptrs, strs, lo, hi)
  {
    forall j | 0 <= j < |strs|
      ensures HasString(m', ptrs[j], strs[j])
    {
      StringFrame(m, m', from, to, ptrs[j], strs[j]);
    }
  }

  lemma BytesStep(strs: seq<seq<Byte>>, i: nat)
    requires i < |strs|
    ensures Bytes(strs[i..]) == |strs[i]| + 1 + Bytes(strs[i + 1..])
  {
    assert strs[i..][0] == strs[i] && strs[i..][1..] == strs[i + 1..];
  }

  /** The first two loops: strings go down from sp, the last one highest; their addresses are kept. */
  method CopyStrings(mem: array<Byte>, sp: nat, strs: seq<seq<Byte>>) returns (sp': nat, ptrs: array<nat>)
    requires sp <= mem.Length && Bytes(strs) <= sp && |strs| <= EXEC_MAX_ARGS
    modifies mem
    ensures fresh(ptrs) && ptrs.Length == EXEC_MAX_ARGS
    ensures sp' == sp - Bytes(strs) && Within(old(mem[..]), mem[..], sp', sp)
    ensures AllStrings(mem[..], ptrs[..|strs|], strs, sp', sp)
  {
    hide HasString, Bytes;
    ptrs := new nat[EXEC_MAX_ARGS];
    sp' := sp;
    var i := |strs|;
    EmptyBytes(strs);
    while i > 0
      invariant 0 <= i <= |strs| && sp' == sp - Bytes(strs[i..]) && Bytes(strs[i..]) <= Bytes(strs)
      invariant Within(old(mem[..]), mem[..], sp', sp)
      invariant AllStrings(mem[..], ptrs[i..|strs|], strs[i..], sp', sp)
    {
      i := i - 1;
      BytesStep(strs, i);
      BytesTail(strs, i);
      ghost var m := mem[..];
      ghost var lo := sp';
      sp' := sp' - (|strs[i]| + 1);
      CopyString(mem, sp', strs[i]);
      StringsFrame(m, mem[..], sp', lo, ptrs[i + 1..|strs|], strs[i + 1..], lo, sp);
      ptrs[i] := sp';
      assert ptrs[i..|strs|] == [sp'] + ptrs[i + 1..|strs|];
      assert strs[i..] == [strs[i]] + strs[i + 1..];
    }
    assert strs[0..] == strs;
  }

  lemma EmptyBytes(strs: seq<seq<Byte>>)
    ensures Bytes(strs[|strs|..]) == 0
  {}

  lemma {:induction false} BytesTail(strs: seq<seq<Byte>>, i: nat)
    requires i <= |strs|
    ensures Bytes(strs[i..]) <= Bytes(strs)
  {
    if i > 0 {
      BytesTail(strs, i - 1);
      BytesStep(strs, i - 1);
    } else {
      assert strs[0..] == strs;
    }
  }

  /** The words are at a, a+8, and so on. */
  ghost predicate AllWords(m: seq<Byte>, a: nat, words: seq<nat>) {
    forall j | 0 <= j < |words| :: HasWord(m, a + 8 * j, words[j])
  }

  lemma WordsFrame(m: seq<Byte>, m': seq<Byte>, from: nat, to: nat, a: nat, words: seq<nat>)
    requires Within(m, m', from, to) && AllWords(m, a, words) && (to <= a || a + 8 * |words| <= from)
    ensures AllWords(m', a, words)
  {
    forall j | 0 <= j < |words|
      ensures HasWord(m', a + 8 * j, words[j])
    {
      WordFrame(m, m', from, to, a + 8 * j, words[j]);
    }
  }

  lemma WordsPush(m: seq<Byte>, a: nat, x: nat, words: seq<nat>)
    requires HasWord(m, a, x) && AllWords(m, a + 8, words)
    ensures AllWords(m, a, [x] + words)
  {
    forall j | 0 <= j < |[x] + words|
      ensures HasWord(m, a + 8 * j, ([x] + words)[j])
    {
      assert j > 0 ==> a + 8 * j == a + 8 + 8 * (j - 1);
    }
  }

  /** The last two loops: a NULL, and below it the pointers in order. */
  method PushPointers(mem: array<Byte>, sp: nat, ptrs: array<nat>, n: nat) returns (sp': nat)
    requires n <= ptrs.Length && 8 * (n + 1) <= sp <= mem.Length
    requires forall j | 0 <= j < n :: ptrs[j] < 0x1_0000_0000_0000_0000
    modifies mem
    ensures sp' == sp - 8 * (n + 1) && Within(old(mem[..]), mem[..], sp', sp)
    ensures AllWords(mem[..], sp', ptrs[..n] + [0])
  {
    hide HasWord;
    sp' := sp - 8;
    StoreWord(mem, sp', 0);
    var i := n;
    assert AllWords(mem[..], sp', ptrs[n..n] + [0]);
    while i > 0
      invariant 0 <= i <= n && sp' == sp - 8 * (n - i + 1) && Within(old(mem[..]), mem[..], sp', sp)
      invariant AllWords(mem[..], sp', ptrs[i..n] + [0])
    {
      i := i - 1;
      ghost var m := mem[..];
      sp' := sp' - 8;
      StoreWord(mem, sp', ptrs[i]);
      WordsFrame(m, mem[..], sp', sp' + 8, sp' + 8, ptrs[i + 1..n] + [0]);
      WordsPush(mem[..], sp', ptrs[i], ptrs[i + 1..n] + [0]);
      assert [ptrs[i]] + (ptrs[i + 1..n] + [0]) == ptrs[i..n] + [0];
    }
    assert ptrs[0..n] == ptrs[..n];
  }

  // ---- Reading, as `_start` and `main` do ----

  /** The strings a NULL-terminated array of pointers stands for. */
  function StringList(m: seq<Byte>, a: nat): seq<seq<Byte>>
    decreases |m| - a
  {
    if a + 8 > |m| || Word(m, a) == 0 then [] else [CString(m, Word(m, a))] + StringList(m, a + 8)
  }

  /** The arguments of `main`. */
  datatype Start = Start(argc: nat, argv: seq<seq<Byte>>, envp: seq<seq<Byte>>)

  /** `_start`: pops argc, takes argv from the stack pointer and envp from just past argv's NULL. */
  function ReadStart(m: seq<Byte>, rsp: nat): Start
    requires rsp + 8 <= |m|
  {
    var rdi := Word(m, rsp);
    var rsi := rsp + 8;
    var rdx := rsi + rdi * 8 + 8;
    Start(rdi, StringList(m, rsi), StringList(m, rdx))
  }

  lemma {:induction false} ListBack(m: seq<Byte>, a: nat, ptrs: seq<nat>, strs: seq<seq<Byte>>, lo: nat, hi: nat)
    requires AllWords(m, a, ptrs + [0]) && AllStrings(m, ptrs, strs, lo, hi) && lo > 0
    requires forall j | 0 <= j < |strs| :: NulFree(strs[j])
    ensures StringList(m, a) == strs
    decreases |strs|
  {
    hide HasString, CString, Word;
    assert HasWord(m, a + 8 * 0, (ptrs + [0])[0]);
    if strs != [] {
      ReadBack(m, ptrs[0], strs[0]);
      WordsTail(m, a, ptrs);
      ListBack(m, a + 8, ptrs[1..], strs[1..], lo, hi);
    }
  }

  lemma WordsTail(m: seq<Byte>, a: nat, ptrs: seq<nat>)
    requires AllWords(m, a, ptrs + [0]) && ptrs != []
    ensures AllWords(m, a + 8, ptrs[1..] + [0])
  {
    hide HasWord;
    var words := ptrs[1..] + [0];
    forall j | 0 <= j < |words|
      ensures HasWord(m, a + 8 + 8 * j, words[j])
    {
      assert words[j] == (ptrs + [0])[j + 1];
      assert HasWord(m, a + 8 * (j + 1), (ptrs + [0])[j + 1]);
    }
  }

  /** The stack `build_user_stack` may use at most. */
  function Space(argv: seq<seq<Byte>>, envp: seq<seq<Byte>>): nat {
    Bytes(argv) + Bytes(envp) + 15 + 8 * (|argv| + |envp| + 3)
  }

  /**
   * `build_user_stack`: `_start` finds exactly the arguments and the environment it was given, nothing outside the
   * stack is touched, and the stack pointer is 8-aligned, 16-aligned exactly when the two counts sum to an odd number.
   */
  method BuildUserStack(mem: array<Byte>, top: nat, argv: seq<seq<Byte>>, envp: seq<seq<Byte>>) returns (rsp: nat)
    requires |argv| <= EXEC_MAX_ARGS && |envp| <= EXEC_MAX_ARGS
    requires forall j | 0 <= j < |argv| :: NulFree(argv[j])
    requires forall j | 0 <= j < |envp| :: NulFree(envp[j])
    requires Space(argv, envp) <= top <= mem.Length && top < 0x1_0000_0000_0000_0000
    modifies mem
    ensures rsp + 8 <= top && ReadStart(mem[..], rsp) == Start(|argv|, argv, envp)
    ensures rsp == (top - Bytes(argv) - Bytes(envp)) / 16 * 16 - 8 * (|argv| + |envp| + 3)
    ensures top - rsp <= Bytes(argv) + Bytes(envp) + 15 + 8 * (|argv| + |envp| + 3)
    ensures Within(old(mem[..]), mem[..], rsp, top)
    ensures rsp % 8 == 0 && (rsp % 16 == 0 <==> (|argv| + |envp|) % 2 == 1)
  {
    hide Bytes, AllStrings, HasWord, AllWords, Word, Within;
    ghost var m0 := mem[..];
    var sp, uenv := CopyStrings(mem, top, envp);
    ghost var envLow := sp;
    ghost var m1 := mem[..];
    var uarg;
    sp, uarg := CopyStrings(mem, sp, argv);
    ghost var argLow := sp;
    ghost var m2 := mem[..];
    StringsFrame(m1, m2, sp, envLow, uenv[..|envp|], envp, envLow, top);
    sp := sp - sp % 16;
    ghost var low := sp;
    PointersFit(m2, uenv[..|envp|], envp, envLow, top);
    PointersFit(m2, uarg[..|argv|], argv, argLow, envLow);
    sp := PushPointers(mem, sp, uenv, |envp|);
    ghost var envArray := sp;
    ghost var m3 := mem[..];
    sp := PushPointers(mem, sp, uarg, |argv|);
    ghost var argArray := sp;
    ghost var m4 := mem[..];
    sp := sp - 8;
    StoreWord(mem, sp, |argv|);
    ghost var m5 := mem[..];
    rsp := sp;
    Layout(m0, m1, m2, m3, m4, m5, top, envLow, argLow, low, envArray, argArray, rsp);
    WordsFrame(m3, m5, rsp, envArray, envArray, uenv[..|envp|] + [0]);
    WordsFrame(m4, m5, rsp, argArray, argArray, uarg[..|argv|] + [0]);
    StringsFrame(m2, m5, rsp, low, uenv[..|envp|], envp, envLow, top);
    StringsFrame(m2, m5, rsp, low, uarg[..|argv|], argv, argLow, envLow);
    ListBack(m5, argArray, uarg[..|argv|], argv, argLow, envLow);
    ListBack(m5, envArray, uenv[..|envp|], envp, envLow, top);
    StartWord(m5, rsp, |argv|);
    Alignment(low, |argv| + |envp|);
  }

  lemma PointersFit(m: seq<Byte>, ptrs: seq<nat>, strs: seq<seq<Byte>>, lo: nat, hi: nat)
    requires AllStrings(m, ptrs, strs, lo, hi)
    ensures |ptrs| == |strs| && forall j | 0 <= j < |ptrs| :: ptrs[j] < hi
  {}

  lemma StartWord(m: seq<Byte>, a: nat, x: nat)
    requires HasWord(m, a, x)
    ensures a + 8 <= |m| && Word(m, a) == x
  {}

  lemma WithinWider(m: seq<Byte>, m': seq<Byte>, m'': seq<Byte>, lo: nat, mid: nat, mid': nat, hi: nat)
    requires Within(m, m', mid', hi) && Within(m', m'', lo, mid) && lo <= mid' && mid <= hi
    ensures Within(m, m'', lo, hi)
  {}

  /** The regions lie one below the other, so what was written is changed by nothing after it. */
  lemma Layout(m0: seq<Byte>, m1: seq<Byte>, m2: seq<Byte>, m3: seq<Byte>, m4: seq<Byte>, m5: seq<Byte>,
               top: nat, envLow: nat, argLow: nat, low: nat, envArray: nat, argArray: nat, rsp: nat)
    requires rsp <= argArray <= envArray <= low <= argLow <= envLow <= top
    requires Within(m0, m1, envLow, top) && Within(m1, m2, argLow, envLow)
    requires Within(m2, m3, envArray, low) && Within(m3, m4, argArray, envArray) && Within(m4, m5, rsp, argArray)
    ensures Within(m0, m5, rsp, top) && Within(m2, m5, rsp, low) && Within(m3, m5, rsp, envArray)
  {
    hide Within;
    WithinWider(m3, m4, m5, rsp, argArray, argArray, envArray);
    WithinWider(m2, m3, m5, rsp, envArray, envArray, low);
    WithinWider(m1, m2, m5, rsp, low, argLow, envLow);
    WithinWider(m0, m1, m5, rsp, envLow, envLow, top);
  }

  lemma Alignment(low: nat, n: nat)
    requires low % 16 == 0 && 8 * (n + 3) <= low
    ensures (low - 8 * (n + 3)) % 8 == 0
    ensures (low - 8 * (n + 3)) % 16 == 0 <==> n % 2 == 1
  {
    Words(low / 16, n);
  }

  lemma Words(q: nat, n: nat)
    requires n + 3 <= 2 * q
    ensures (16 * q - 8 * (n + 3)) % 8 == 0 && ((16 * q - 8 * (n + 3)) % 16 == 0 <==> n % 2 == 1)
  {
    var x := 2 * q - (n + 3);
    assert 16 * q - 8 * (n + 3) == 8 * x;
    Eights(x);
  }

  lemma Eights(x: nat)
    ensures 8 * x % 8 == 0 && (8 * x % 16 == 0 <==> x % 2 == 0)
  {}
}
