/**
  The argument page that exec hands to a new image (process.c): argc, the table of string addresses ended by a
  NULL, then the strings themselves. It is built in one kernel block, copied to the last user page, and relocated.
*/
module ArgPage {
  import opened Quotients
  import opened Word32

  const PROC_NAME_LEN := 80

  /** The characters of a C string, without the terminator. */
  type CString = seq<Byte>

  predicate NoNul(s: CString) {
    forall i :: 0 <= i < |s| ==> s[i] != 0
  }

  datatype Option<T> = None | Some(value: T)

  // ---------------------------------------------------------------- words in memory

  /** The little-endian word at offset o. */
  function WordAt(m: seq<Byte>, o: nat): Word
    requires o + 4 <= |m|
  {
    var b0: int, b1: int, b2: int, b3: int := m[o], m[o + 1], m[o + 2], m[o + 3];
    b0 + 0x100 * b1 + 0x1_0000 * b2 + 0x100_0000 * b3
  }

  predicate IsWord(m: seq<Byte>, o: nat, w: int) {
    o + 4 <= |m| && WordAt(m, o) == w
  }

  lemma Digits(w: nat, b: nat)
    requires b == 0x100 || b == 0x1_0000
    ensures w / b % 0x100 == w / b - 0x100 * (w / (0x100 * b)) && w % 0x100 == w - 0x100 * (w / 0x100)
  {
  }

  method PutWord(mem: array<Byte>, o: nat, w: Word)
    requires o + 4 <= mem.Length
    modifies mem
    ensures IsWord(mem[..], o, w)
    ensures w == 0 ==> forall k :: o <= k < o + 4 ==> mem[k] == 0
    ensures forall k :: 0 <= k < mem.Length && !(o <= k < o + 4) ==> mem[k] == old(mem[k])
  {
    mem[o] := w % 0x100;
    mem[o + 1] := w / 0x100 % 0x100;
    mem[o + 2] := w / 0x1_0000 % 0x100;
    mem[o + 3] := w / 0x100_0000;
    Digits(w, 0x100);
    Digits(w, 0x1_0000);
  }

  predicate IsString(m: seq<Byte>, o: nat, s: seq<Byte>) {
    o + |s| < |m| && m[o..o + |s|] == s && m[o + |s|] == 0
  }

  method Strcpy(mem: array<Byte>, o: nat, s: CString)
    requires o + |s| < mem.Length
    modifies mem
    ensures IsString(mem[..], o, s) && mem[o + |s|] == 0 && forall k :: 0 <= k < |s| ==> mem[o + k] == s[k]
    ensures forall k :: 0 <= k < mem.Length && !(o <= k <= o + |s|) ==> mem[k] == old(mem[k])
  {
    var i := 0;
    while i < |s|
      invariant 0 <= i <= |s|
      invariant forall k :: 0 <= k < i ==> mem[o + k] == s[k]
      invariant forall k :: 0 <= k < mem.Length && !(o <= k < o + i) ==> mem[k] == old(mem[k])
    {
      mem[o + i] := s[i];
      i := i + 1;
    }
    mem[o + |s|] := 0;
    assert mem[..][o..o + |s|] == s;
  }

  lemma SameString(m: seq<Byte>, m': seq<Byte>, o: nat, s: seq<Byte>)
    requires IsString(m, o, s) && o + |s| < |m'|
    requires forall i :: o <= i <= o + |s| ==> m'[i] == m[i]
    ensures IsString(m', o, s)
  {
  }

  // ---------------------------------------------------------------- the layout

  /** Offset of the first string: argc, one slot per string, and the NULL slot. */
  function TableEnd(strs: seq<CString>): nat {
    4 + 4 * (|strs| + 1)
  }

  /** Offset of string k; of the end of the last one for k = |strs|. */
  function Off(strs: seq<CString>, k: nat): nat
    requires k <= |strs|
  {
    if k == 0 then TableEnd(strs) else Off(strs, k - 1) + |strs[k - 1]| + 1
  }

  function Size(strs: seq<CString>): nat {
    Off(strs, |strs|)
  }

  lemma {:induction false} OffGrows(strs: seq<CString>, j: nat, k: nat)
    requires j <= k <= |strs|
    ensures TableEnd(strs) <= Off(strs, j) <= Off(strs, k)
    ensures j < k ==> Off(strs, j) + |strs[j]| < Off(strs, k)
  {
    if j < k {
      OffGrows(strs, j, k - 1);
    } else if 0 < k {
      OffGrows(strs, j - 1, k - 1);
    }
  }

  /** String j is in place, with its address in slot j. */
  ghost predicate Slot(m: seq<Byte>, base: Word, strs: seq<CString>, j: nat)
    requires j < |strs|
  {
    IsWord(m, 4 + 4 * j, base + Off(strs, j)) && IsString(m, Off(strs, j), strs[j])
  }

  /** The first k strings are in place. */
  ghost predicate Placed(m: seq<Byte>, base: Word, strs: seq<CString>, k: nat)
    requires k <= |strs|
  {
    forall j :: 0 <= j < k ==> Slot(m, base, strs, j)
  }

  /** Slots from k on, and the page from string k on, are still zero. */
  ghost predicate Blank(m: seq<Byte>, strs: seq<CString>, k: nat)
    requires k <= |strs| && TableEnd(strs) <= |m|
  {
    && (forall o :: 4 + 4 * k <= o < TableEnd(strs) && o < PAGE_SIZE ==> m[o] == 0)
    && (forall o :: Off(strs, k) <= o < |m| && o < PAGE_SIZE ==> m[o] == 0)
  }

  /** Only slot k and the place of string k differ. */
  ghost predicate OnlyString(m: seq<Byte>, m': seq<Byte>, strs: seq<CString>, k: nat)
    requires k < |strs|
  {
    && |m'| == |m|
    && forall o | 0 <= o < |m| && !(4 + 4 * k <= o < 8 + 4 * k) && !(Off(strs, k) <= o < Off(strs, k + 1)) ::
         m'[o] == m[o]
  }

  lemma SlotUnchanged(m: seq<Byte>, m': seq<Byte>, base: Word, strs: seq<CString>, j: nat, k: nat)
    requires j < k < |strs| && Slot(m, base, strs, j) && OnlyString(m, m', strs, k)
    ensures Slot(m', base, strs, j)
  {
    OffGrows(strs, j, k);
    OffGrows(strs, k, k);
    SameString(m, m', Off(strs, j), strs[j]);
  }

  lemma PlacedStep(m: seq<Byte>, m': seq<Byte>, base: Word, strs: seq<CString>, k: nat)
    requires k < |strs| && Placed(m, base, strs, k)
    requires OnlyString(m, m', strs, k) && Slot(m', base, strs, k)
    ensures Placed(m', base, strs, k + 1)
  {
    forall j | 0 <= j < k
      ensures Slot(m', base, strs, j)
    {
      SlotUnchanged(m, m', base, strs, j, k);
    }
  }

  lemma BlankStep(m: seq<Byte>, m': seq<Byte>, strs: seq<CString>, k: nat)
    requires k < |strs| && TableEnd(strs) <= |m| && Blank(m, strs, k)
    requires OnlyString(m, m', strs, k)
    ensures Blank(m', strs, k + 1)
  {
    OffGrows(strs, k, k + 1);
  }

  /** A whole argument page at address base: n arguments, then the environment. */
  ghost predicate IsArgPage(p: seq<Byte>, base: Word, strs: seq<CString>, n: nat) {
    && n <= |strs| && |p| == PAGE_SIZE && base + PAGE_SIZE <= TWO32 && Size(strs) <= PAGE_SIZE
    && IsWord(p, 0, n)
    && Placed(p, base, strs, |strs|)
    && TableEnd(strs) <= PAGE_SIZE && Blank(p, strs, |strs|)
  }

  // ---------------------------------------------------------------- preserve_args_and_env

  ghost predicate Built(m: seq<Byte>, base: Word, strs: seq<CString>, n: nat, k: nat)
    requires k <= |strs|
  {
    && TableEnd(strs) <= |m|
    && IsWord(m, 0, n)
    && Placed(m, base, strs, k)
    && Blank(m, strs, k)
  }

  /** Some string is in place with its end beyond the page. */
  ghost predicate Overrun(m: seq<Byte>, base: Word, strs: seq<CString>) {
    exists k :: 0 <= k < |strs| && Slot(m, base, strs, k) && Off(strs, k + 1) > PAGE_SIZE
  }

  lemma LastOverruns(m: seq<Byte>, base: Word, strs: seq<CString>, n: nat, k: nat)
    requires k < |strs| && Built(m, base, strs, n, k + 1) && Off(strs, k + 1) > PAGE_SIZE
    ensures Size(strs) > PAGE_SIZE && Overrun(m, base, strs)
  {
    OffGrows(strs, k + 1, |strs|);
    assert Slot(m, base, strs, k);
  }

  /** Put the next string at str_p and its address in the next slot. */
  method PlaceString(mem: array<Byte>, base: Word, slot: nat, str_p: nat, s: CString,
                     ghost strs: seq<CString>, ghost n: nat, ghost k: nat)
    returns (str_p': nat)
    requires base + mem.Length <= TWO32 && Size(strs) <= mem.Length
    requires k < |strs| && s == strs[k] && slot == 4 + 4 * k && str_p == Off(strs, k)
    requires Built(mem[..], base, strs, n, k)
    modifies mem
    ensures Built(mem[..], base, strs, n, k + 1) && str_p' == Off(strs, k + 1)
    ensures forall o :: Off(strs, k + 1) <= o < mem.Length ==> mem[o] == old(mem[o])
  {
    OffGrows(strs, k + 1, |strs|);
    OffGrows(strs, k, k + 1);
    PutWord(mem, slot, base + str_p);
    ghost var m1 := mem[..];
    Strcpy(mem, str_p, s);
    str_p' := str_p + |s| + 1;
    assert IsWord(mem[..], slot, base + str_p);
    assert Slot(mem[..], base, strs, k);
    PlacedStep(old(mem[..]), mem[..], base, strs, k);
    BlankStep(old(mem[..]), mem[..], strs, k);
  }

  /** The argument strings of an image: those given, or the process name when there is none. */
  function Arguments(argc: nat, argv: Option<seq<CString>>, name: CString): seq<CString> {
    if argc == 0 || argv.None? then [name] else argv.value
  }

  function Environment(envp: Option<seq<CString>>): seq<CString> {
    if envp.None? then [] else envp.value
  }

  /** Slot j holds the address of string s, for a page at address base. */
  ghost predicate Points(p: seq<Byte>, base: Word, j: nat, s: CString) {
    8 + 4 * j <= |p| && base <= WordAt(p, 4 + 4 * j) && IsString(p, WordAt(p, 4 + 4 * j) - base, s)
  }

  /** The slots from `first` on hold the addresses of the strings ss, in order. */
  ghost predicate InSlots(p: seq<Byte>, base: Word, first: nat, ss: seq<CString>) {
    forall k :: 0 <= k < |ss| ==> Points(p, base, first + k, ss[k])
  }

  lemma PagePoints(p: seq<Byte>, base: Word, args: seq<CString>, env: seq<CString>)
    requires IsArgPage(p, base, args + env, |args|)
    ensures WordAt(p, 0) == |args| && InSlots(p, base, 0, args) && InSlots(p, base, |args|, env)
  {
    var strs := args + env;
    forall k | 0 <= k < |strs| ensures Points(p, base, k, strs[k]) {
      assert Slot(p, base, strs, k);
    }
    assert forall k :: 0 <= k < |env| ==> strs[|args| + k] == env[k];
    assert forall k :: 0 <= k < |args| ==> strs[k] == args[k];
  }

  /** What a page with the strings of exec holds, string for string. */
  lemma PageHolds(p: seq<Byte>, base: Word, argc: nat, argv: Option<seq<CString>>, envp: Option<seq<CString>>,
                  name: CString)
    requires (argv.Some? ==> |argv.value| == argc) && (argc > 0 ==> argv.Some?)
    requires IsArgPage(p, base, Arguments(argc, argv, name) + Environment(envp), |Arguments(argc, argv, name)|)
    ensures WordAt(p, 0) == if argc == 0 then 1 else argc
    ensures if argc == 0 then InSlots(p, base, 0, [name]) else InSlots(p, base, 0, argv.value)
    ensures envp.Some? ==> InSlots(p, base, if argc == 0 then 1 else argc, envp.value)
  {
    PagePoints(p, base, Arguments(argc, argv, name), Environment(envp));
  }

  /**
    Build the argument page in the block at `base`; `mem` is memory from that block on, long enough for whatever
    strcpy writes before the size check stops it. The result is false where the code returns NULL. The check follows
    each copy: refusing strings that are too long means having copied one of them past the end of the block.
  */
  method PreserveArgsAndEnv(mem: array<Byte>, base: Word, argc: nat, argv: Option<seq<CString>>,
                            envp: Option<seq<CString>>, name: CString)
    returns (ok: bool)
    requires argv.Some? ==> |argv.value| == argc
    requires |name| < PROC_NAME_LEN
    requires PAGE_SIZE <= mem.Length && base + mem.Length <= TWO32
    requires Size(Arguments(argc, argv, name) + Environment(envp)) <= mem.Length
    modifies mem
    ensures argc > 0 && argv.None? ==> !ok && mem[..] == old(mem[..])
    ensures !(argc > 0 && argv.None?) ==>
              (ok <==> Size(Arguments(argc, argv, name) + Environment(envp)) <= PAGE_SIZE)
    ensures ok ==> IsArgPage(mem[..PAGE_SIZE], base, Arguments(argc, argv, name) + Environment(envp),
                             |Arguments(argc, argv, name)|)
    ensures ok ==> WordAt(mem[..PAGE_SIZE], 0) == if argc == 0 then 1 else argc
    ensures ok ==>
              if argc == 0 then InSlots(mem[..PAGE_SIZE], base, 0, [name])
              else InSlots(mem[..PAGE_SIZE], base, 0, argv.value)
    ensures ok && envp.Some? ==> InSlots(mem[..PAGE_SIZE], base, if argc == 0 then 1 else argc, envp.value)
    ensures ok ==> mem[PAGE_SIZE..] == old(mem[PAGE_SIZE..])
    ensures !(argc > 0 && argv.None?) && !ok ==> Overrun(mem[..], base, Arguments(argc, argv, name) + Environment(envp))
  {
    if argc > 0 && argv.None? {
      return false;
    }
    ok := BuildPage(mem, base, argc, argv, envp, name);
    if ok {
      PageHolds(mem[..PAGE_SIZE], base, argc, argv, envp, name);
    }
  }

  /** The block once it is allocated: cleared, and filled. */
  method BuildPage(mem: array<Byte>, base: Word, argc: nat, argv: Option<seq<CString>>, envp: Option<seq<CString>>,
                   name: CString)
    returns (ok: bool)
    requires (argv.Some? ==> |argv.value| == argc) && (argc > 0 ==> argv.Some?)
    requires PAGE_SIZE <= mem.Length && base + mem.Length <= TWO32 && |name| < PROC_NAME_LEN
    requires Size(Arguments(argc, argv, name) + Environment(envp)) <= mem.Length
    modifies mem
    ensures ok <==> Size(Arguments(argc, argv, name) + Environment(envp)) <= PAGE_SIZE
    ensures ok ==> IsArgPage(mem[..PAGE_SIZE], base, Arguments(argc, argv, name) + Environment(envp),
                             |Arguments(argc, argv, name)|)
    ensures ok ==> mem[PAGE_SIZE..] == old(mem[PAGE_SIZE..])
    ensures !ok ==> Overrun(mem[..], base, Arguments(argc, argv, name) + Environment(envp))
  {
    ghost var strs, n := Arguments(argc, argv, name) + Environment(envp), |Arguments(argc, argv, name)|;
    OffGrows(strs, 0, |strs|);
    var args_p := PrepareTable(mem, base, argc, envp, strs, n);
    var str_p;
    ok, str_p := PlaceArguments(mem, base, args_p, argc, argv, name, strs, n);
    if !ok {
      return;
    }
    ok := PlaceEnvironment(mem, base, str_p, envp, strs, n);
    if ok {
      PageOf(mem[..], base, strs, n);
    }
  }

  /** The argument strings, or the name. */
  method PlaceArguments(mem: array<Byte>, base: Word, args_p: nat, argc: nat, argv: Option<seq<CString>>,
                        name: CString, ghost strs: seq<CString>, ghost n: nat)
    returns (ok: bool, str_p: nat)
    requires (argv.Some? ==> |argv.value| == argc) && (argc > 0 ==> argv.Some?) && |name| < PROC_NAME_LEN
    requires base + mem.Length <= TWO32 && PAGE_SIZE <= mem.Length && Size(strs) <= mem.Length
    requires n == |Arguments(argc, argv, name)| <= |strs| && strs[..n] == Arguments(argc, argv, name)
    requires args_p == TableEnd(strs) && Built(mem[..], base, strs, n, 0)
    modifies mem
    ensures ok ==> Built(mem[..], base, strs, n, n) && str_p == Off(strs, n) && (str_p <= PAGE_SIZE || argc == 0)
    ensures !ok ==> Size(strs) > PAGE_SIZE && Overrun(mem[..], base, strs)
    ensures ok ==> forall o :: str_p <= o < mem.Length && PAGE_SIZE <= o ==> mem[o] == old(mem[o])
  {
    ok, str_p := true, args_p;
    if argc == 0 {
      str_p := PlaceString(mem, base, 4, str_p, name, strs, n, 0);
    } else {
      ok, str_p := PlaceStrings(mem, base, 4, str_p, argv.value, strs, n, 0);
    }
  }

  /** The environment strings; their slots start after the argc slots, argc being read back from the page. */
  method PlaceEnvironment(mem: array<Byte>, base: Word, str_p: nat, envp: Option<seq<CString>>,
                          ghost strs: seq<CString>, ghost n: nat)
    returns (ok: bool)
    requires base + mem.Length <= TWO32 && PAGE_SIZE <= mem.Length && Size(strs) <= mem.Length
    requires n <= |strs| && strs[n..] == Environment(envp)
    requires str_p == Off(strs, n) && (str_p <= PAGE_SIZE || n < |strs|)
    requires Built(mem[..], base, strs, n, n)
    modifies mem
    ensures ok <==> Size(strs) <= PAGE_SIZE
    ensures ok ==> Built(mem[..], base, strs, n, |strs|)
    ensures ok ==> forall o :: PAGE_SIZE <= o < mem.Length ==> mem[o] == old(mem[o])
    ensures !ok ==> Overrun(mem[..], base, strs)
  {
    var env_p := 4 + 4 * WordAt(mem[..], 0);
    ok := true;
    if envp.Some? {
      var end_p;
      ok, end_p := PlaceStrings(mem, base, env_p, str_p, envp.value, strs, n, n);
    }
  }

  lemma PageOf(m: seq<Byte>, base: Word, strs: seq<CString>, n: nat)
    requires Built(m, base, strs, n, |strs|) && n <= |strs| && Size(strs) <= PAGE_SIZE <= |m| && base + |m| <= TWO32
    ensures IsArgPage(m[..PAGE_SIZE], base, strs, n)
  {
    var p := m[..PAGE_SIZE];
    OffGrows(strs, 0, |strs|);
    forall j | 0 <= j < |strs|
      ensures Slot(p, base, strs, j)
    {
      OffGrows(strs, j, |strs|);
      assert Slot(m, base, strs, j);
      SameString(m, p, Off(strs, j), strs[j]);
    }
  }

  /** The loop over argv or envp: place strings first.. of all strings, checking the size after each copy. */
  method PlaceStrings(mem: array<Byte>, base: Word, slots: nat, str_p: nat, ss: seq<CString>,
                      ghost strs: seq<CString>, ghost n: nat, ghost first: nat)
    returns (ok: bool, str_p': nat)
    requires base + mem.Length <= TWO32 && PAGE_SIZE <= mem.Length && Size(strs) <= mem.Length
    requires first + |ss| <= |strs| && ss == strs[first..first + |ss|]
    requires slots == 4 + 4 * first && str_p == Off(strs, first)
    requires Built(mem[..], base, strs, n, first)
    modifies mem
    ensures ok ==> Built(mem[..], base, strs, n, first + |ss|) && str_p' == Off(strs, first + |ss|)
    ensures ok ==> |ss| == 0 || str_p' <= PAGE_SIZE
    ensures !ok ==> Size(strs) > PAGE_SIZE && Overrun(mem[..], base, strs)
    ensures ok ==> forall o :: str_p' <= o < mem.Length && PAGE_SIZE <= o ==> mem[o] == old(mem[o])
  {
    str_p' := str_p;
    var i := 0;
    while i < |ss|
      invariant 0 <= i <= |ss|
      invariant Built(mem[..], base, strs, n, first + i) && str_p' == Off(strs, first + i)
      invariant 0 < i ==> str_p' <= PAGE_SIZE
      invariant forall o :: str_p' <= o < mem.Length && PAGE_SIZE <= o ==> mem[o] == old(mem[o])
    {
      OffGrows(strs, first + i, first + i + 1);
      str_p' := PlaceString(mem, base, slots + 4 * i, str_p', ss[i], strs, n, first + i);
      if str_p' > PAGE_SIZE {
        LastOverruns(mem[..], base, strs, n, first + i);
        return false, str_p';
      }
      i := i + 1;
    }
    return true, str_p';
  }

  /** Clear the page, write argc, and step over the address slots. */
  method PrepareTable(mem: array<Byte>, base: Word, argc: nat, envp: Option<seq<CString>>, ghost strs: seq<CString>,
                      ghost n: nat)
    returns (args_p: nat)
    requires PAGE_SIZE <= mem.Length && TableEnd(strs) <= mem.Length && base + mem.Length <= TWO32
    requires n == (if argc == 0 then 1 else argc) && |strs| == n + |Environment(envp)|
    modifies mem
    ensures args_p == TableEnd(strs) && Built(mem[..], base, strs, n, 0)
    ensures forall o :: args_p <= o < mem.Length && PAGE_SIZE <= o ==> mem[o] == old(mem[o])
  {
    forall o | 0 <= o < PAGE_SIZE {
      mem[o] := 0;
    }
    args_p := 4;
    PutWord(mem, 0, if argc == 0 then 1 else argc);
    args_p := args_p + (if argc == 0 then 4 else 4 * argc);
    if envp.None? {
      PutWord(mem, args_p, 0);
      args_p := args_p + 4;
    } else {
      args_p := SkipEnvSlots(args_p, envp.value);
    }
  }

  /** The do/while that steps over one slot per environment string and one for the NULL. */
  method SkipEnvSlots(args_p: nat, envp: seq<CString>) returns (p: nat)
    ensures p == args_p + 4 * (|envp| + 1)
  {
    var i := 0;
    p := args_p;
    while true
      invariant 0 <= i <= |envp| && p == args_p + 4 * i
      decreases |envp| - i
    {
      p := p + 4;
      i := i + 1;
      if i == |envp| + 1 {
        break;
      }
    }
  }

  // ---------------------------------------------------------------- post_setup_image

  /** The address in slot j while slots before k have moved from base `from` to base `to`. */
  function Target(from: Word, to: Word, strs: seq<CString>, k: nat, j: nat): int
    requires j < |strs|
  {
    (if j < k then to else from) + Off(strs, j)
  }

  /** String j is in place; its slot holds the address for the base that applies to it. */
  ghost predicate MovingSlot(p: seq<Byte>, from: Word, to: Word, strs: seq<CString>, k: nat, j: nat)
    requires j < |strs|
  {
    IsWord(p, 4 + 4 * j, Target(from, to, strs, k, j)) && IsString(p, Off(strs, j), strs[j])
  }

  /** The page, with the addresses of the first k slots already moved. */
  ghost predicate Relocating(p: seq<Byte>, from: Word, to: Word, strs: seq<CString>, n: nat, k: nat) {
    && n <= |strs| && |p| == PAGE_SIZE && TableEnd(strs) <= Size(strs) <= PAGE_SIZE
    && IsWord(p, 0, n)
    && (forall j :: 0 <= j < |strs| ==> MovingSlot(p, from, to, strs, k, j))
    && Blank(p, strs, |strs|)
  }

  /** Everything but slot k is the same. */
  ghost predicate OnlySlot(p: seq<Byte>, p': seq<Byte>, k: nat) {
    |p'| == |p| && forall o :: 0 <= o < |p| && !(4 + 4 * k <= o < 8 + 4 * k) ==> p'[o] == p[o]
  }

  lemma RelocatingStep(p: seq<Byte>, p': seq<Byte>, from: Word, to: Word, strs: seq<CString>, n: nat, k: nat)
    requires Relocating(p, from, to, strs, n, k) && k < |strs| && OnlySlot(p, p', k)
    requires IsWord(p', 4 + 4 * k, Target(from, to, strs, k + 1, k))
    ensures Relocating(p', from, to, strs, n, k + 1)
  {
    var k' := k + 1;
    forall j | 0 <= j < |strs|
      ensures MovingSlot(p', from, to, strs, k', j)
    {
      OffGrows(strs, 0, j);
      assert MovingSlot(p, from, to, strs, k, j);
      SameString(p, p', Off(strs, j), strs[j]);
    }
    OffGrows(strs, 0, |strs|);
  }

  /** The NULL slot reads as zero, every other slot as an address that is not. */
  lemma SlotIsNull(p: seq<Byte>, from: Word, to: Word, strs: seq<CString>, n: nat, k: nat, j: nat)
    requires Relocating(p, from, to, strs, n, k) && j <= |strs| && from != 0 && to != 0
    ensures 8 + 4 * j <= |p|
    ensures WordAt(p, 4 + 4 * j) == 0 <==> j == |strs|
    ensures j < |strs| ==> WordAt(p, 4 + 4 * j) == Target(from, to, strs, k, j)
  {
    if j < |strs| {
      assert MovingSlot(p, from, to, strs, k, j);
    }
  }

  lemma BuiltPage(p: seq<Byte>, from: Word, to: Word, strs: seq<CString>, n: nat)
    requires IsArgPage(p, from, strs, n)
    ensures Relocating(p, from, to, strs, n, 0)
  {
    OffGrows(strs, 0, |strs|);
    forall j | 0 <= j < |strs|
      ensures MovingSlot(p, from, to, strs, 0, j)
    {
      assert Slot(p, from, strs, j);
    }
  }

  /** Move one slot's address from one base to the other. */
  method Relocate(page: array<Byte>, from: Word, to: Word, slot: nat, ghost strs: seq<CString>, ghost n: nat,
                  ghost k: nat)
    requires from != 0 && to != 0 && from + PAGE_SIZE <= TWO32 && to + PAGE_SIZE <= TWO32
    requires Relocating(page[..], from, to, strs, n, k) && k < |strs| && slot == 4 + 4 * k
    modifies page
    ensures Relocating(page[..], from, to, strs, n, k + 1)
  {
    SlotIsNull(page[..], from, to, strs, n, k, k);
    OffGrows(strs, k, |strs|);
    var offset := Wrap(WordAt(page[..], slot) - from);
    PutWord(page, slot, Wrap(offset + to));
    RelocatingStep(old(page[..]), page[..], from, to, strs, n, k);
  }

  /**
    Copy the argument page built at address `from` to its final place at address `to`, and relocate its addresses.
    The second walk ends at the NULL after the last environment string.
  */
  method PostSetupImage(block: seq<Byte>, from: Word, page: array<Byte>, to: Word, ghost strs: seq<CString>,
                        ghost n: nat)
    returns (envc: nat)
    requires IsArgPage(block, from, strs, n)
    requires from != 0 && to != 0 && to + PAGE_SIZE <= TWO32
    requires page.Length == PAGE_SIZE
    modifies page
    ensures IsArgPage(page[..], to, strs, n)
    ensures envc == |strs| - n
  {
    forall o | 0 <= o < PAGE_SIZE {
      page[o] := block[o];
    }
    assert page[..] == block;
    BuiltPage(page[..], from, to, strs, n);
    var argc := WordAt(page[..], 0);
    var i := 0;
    while i < argc
      invariant 0 <= i <= argc == n
      invariant Relocating(page[..], from, to, strs, n, i)
    {
      Relocate(page, from, to, 4 + 4 * i, strs, n, i);
      i := i + 1;
    }
    envc := RelocateEnv(page, from, to, 4 + 4 * argc, strs, n);
    RelocatedPage(page[..], from, to, strs, n);
  }

  /** The second walk, over slots up to the NULL. */
  method RelocateEnv(page: array<Byte>, from: Word, to: Word, env_p: nat, ghost strs: seq<CString>, ghost n: nat)
    returns (envc: nat)
    requires from != 0 && to != 0 && from + PAGE_SIZE <= TWO32 && to + PAGE_SIZE <= TWO32
    requires n <= |strs| && env_p == 4 + 4 * n && Relocating(page[..], from, to, strs, n, n)
    modifies page
    ensures envc == |strs| - n && Relocating(page[..], from, to, strs, n, |strs|)
  {
    envc := 0;
    SlotIsNull(page[..], from, to, strs, n, n, n);
    while WordAt(page[..], env_p + 4 * envc) != 0
      invariant 0 <= envc <= |strs| - n
      invariant Relocating(page[..], from, to, strs, n, n + envc)
      invariant env_p + 4 * envc + 4 <= page.Length
      invariant WordAt(page[..], env_p + 4 * envc) == 0 <==> n + envc == |strs|
      decreases |strs| - envc
    {
      Relocate(page, from, to, env_p + 4 * envc, strs, n, n + envc);
      envc := envc + 1;
      SlotIsNull(page[..], from, to, strs, n, n + envc, n + envc);
    }
  }

  lemma RelocatedPage(p: seq<Byte>, from: Word, to: Word, strs: seq<CString>, n: nat)
    requires Relocating(p, from, to, strs, n, |strs|) && to + PAGE_SIZE <= TWO32
    ensures IsArgPage(p, to, strs, n)
  {
    forall j | 0 <= j < |strs|
      ensures Slot(p, to, strs, j)
    {
      assert MovingSlot(p, from, to, strs, |strs|, j);
    }
  }

  // ---------------------------------------------------------------- what the new image reads

  function StringAt(p: seq<Byte>, o: nat): CString
    decreases |p| - o
  {
    if o >= |p| || p[o] == 0 then [] else [p[o]] + StringAt(p, o + 1)
  }

  /** The string behind slot j, for a page at address base. */
  function SlotString(p: seq<Byte>, base: Word, j: nat): CString
    requires 8 + 4 * j <= |p|
  {
    var w := WordAt(p, 4 + 4 * j);
    if w < base then [] else StringAt(p, w - base)
  }

  /** The strings of count slots from slot j. */
  function ReadArgs(p: seq<Byte>, base: Word, j: nat, count: nat): seq<CString>
    decreases count
  {
    if count == 0 || |p| < 8 + 4 * j then [] else [SlotString(p, base, j)] + ReadArgs(p, base, j + 1, count - 1)
  }

  /** The strings of the slots from slot j up to the first NULL. */
  function ReadEnv(p: seq<Byte>, base: Word, j: nat): seq<CString>
    decreases |p| - 4 * j
  {
    if |p| < 8 + 4 * j || WordAt(p, 4 + 4 * j) == 0 then [] else [SlotString(p, base, j)] + ReadEnv(p, base, j + 1)
  }

  lemma StringAtReads(p: seq<Byte>, o: nat, s: CString)
    requires IsString(p, o, s) && NoNul(s)
    ensures StringAt(p, o) == s
    decreases |s|
  {
    if |s| > 0 {
      assert p[o] == p[o..o + |s|][0] == s[0];
      assert p[o + 1..o + |s|] == s[1..];
      StringAtReads(p, o + 1, s[1..]);
    }
  }

  lemma SlotStringReads(p: seq<Byte>, base: Word, strs: seq<CString>, n: nat, j: nat)
    requires IsArgPage(p, base, strs, n) && j < |strs| && NoNul(strs[j]) && base != 0
    ensures 8 + 4 * j <= |p| && WordAt(p, 4 + 4 * j) != 0
    ensures SlotString(p, base, j) == strs[j]
  {
    assert Slot(p, base, strs, j);
    StringAtReads(p, Off(strs, j), strs[j]);
  }

  lemma ReadArgsReads(p: seq<Byte>, base: Word, strs: seq<CString>, n: nat, j: nat, count: nat)
    requires IsArgPage(p, base, strs, n) && base != 0 && forall k :: 0 <= k < |strs| ==> NoNul(strs[k])
    requires j + count <= |strs|
    ensures ReadArgs(p, base, j, count) == strs[j..j + count]
    decreases count
  {
    if count > 0 {
      SlotStringReads(p, base, strs, n, j);
      ReadArgsReads(p, base, strs, n, j + 1, count - 1);
    }
  }

  lemma ReadEnvReads(p: seq<Byte>, base: Word, strs: seq<CString>, n: nat, j: nat)
    requires IsArgPage(p, base, strs, n) && base != 0 && forall k :: 0 <= k < |strs| ==> NoNul(strs[k])
    requires j <= |strs|
    ensures ReadEnv(p, base, j) == strs[j..]
    decreases |strs| - j
  {
    if j < |strs| {
      SlotStringReads(p, base, strs, n, j);
      ReadEnvReads(p, base, strs, n, j + 1);
    } else {
      OffGrows(strs, 0, |strs|);
    }
  }

  /** The page determines its strings: argc, the arguments, and the environment read back as they went in. */
  lemma PageReadsBack(p: seq<Byte>, base: Word, args: seq<CString>, env: seq<CString>)
    requires IsArgPage(p, base, args + env, |args|) && base != 0
    requires (forall k :: 0 <= k < |args| ==> NoNul(args[k])) && (forall k :: 0 <= k < |env| ==> NoNul(env[k]))
    ensures WordAt(p, 0) == |args|
    ensures ReadArgs(p, base, 0, WordAt(p, 0)) == args
    ensures ReadEnv(p, base, WordAt(p, 0)) == env
  {
    ReadArgsReads(p, base, args + env, |args|, 0, |args|);
    ReadEnvReads(p, base, args + env, |args|, |args|);
  }

  // ---------------------------------------------------------------- what is passed, string for string

  /** How many characters there are in all, without terminators. */
  function Chars(ss: seq<CString>): nat {
    if ss == [] then 0 else |ss[0]| + Chars(ss[1..])
  }

  lemma {:induction false} CharsOfBoth(a: seq<CString>, b: seq<CString>)
    ensures Chars(a + b) == Chars(a) + Chars(b)
    decreases |a|
  {
    if a == [] {
      assert a + b == b;
    } else {
      assert (a + b)[1..] == a[1..] + b;
      CharsOfBoth(a[1..], b);
    }
  }

  lemma {:induction false} OffIs(strs: seq<CString>, k: nat)
    requires k <= |strs|
    ensures Off(strs, k) == 4 + 4 * (|strs| + 1) + Chars(strs[..k]) + k
  {
    if k > 0 {
      OffIs(strs, k - 1);
      assert strs[..k] == strs[..k - 1] + [strs[k - 1]];
      CharsOfBoth(strs[..k - 1], [strs[k - 1]]);
    }
  }

  /** argc, a slot for each string and one for the NULL, and each string with its terminator. */
  lemma SizeIs(args: seq<CString>, env: seq<CString>)
    ensures Size(args + env) == 4 + 4 * |args| + 4 * (|env| + 1) + Chars(args) + |args| + Chars(env) + |env|
  {
    OffIs(args + env, |args + env|);
    assert (args + env)[..|args + env|] == args + env;
    CharsOfBoth(args, env);
  }

  /** The strings the code puts in the page: argv as it is, or the name if there is none; then envp. */
  lemma PassedStrings(argc: nat, argv: Option<seq<CString>>, envp: Option<seq<CString>>, name: CString)
    requires argv.Some? ==> |argv.value| == argc
    requires NoNul(name) && (argv.Some? ==> forall k :: 0 <= k < argc ==> NoNul(argv.value[k]))
    requires envp.Some? ==> forall k :: 0 <= k < |envp.value| ==> NoNul(envp.value[k])
    ensures argc > 0 && argv.Some? ==> Arguments(argc, argv, name) == argv.value
    ensures argc == 0 ==> Arguments(argc, argv, name) == [name]
    ensures envp.Some? ==> Environment(envp) == envp.value
    ensures envp.None? ==> Environment(envp) == []
    ensures forall k :: 0 <= k < |Arguments(argc, argv, name)| ==> NoNul(Arguments(argc, argv, name)[k])
    ensures forall k :: 0 <= k < |Environment(envp)| ==> NoNul(Environment(envp)[k])
    ensures Size(Arguments(argc, argv, name) + Environment(envp)) ==
              8 + 4 * |Arguments(argc, argv, name)| + Chars(Arguments(argc, argv, name)) + |Arguments(argc, argv, name)|
              + 4 * |Environment(envp)| + Chars(Environment(envp)) + |Environment(envp)|
  {
    SizeIs(Arguments(argc, argv, name), Environment(envp));
  }

  /**
    exec's round trip: what is built in the kernel block at `from` and moved to `to` reads back, at `to`, as argv in
    its order, or the process name alone when argc is 0, and as envp. It is refused exactly if the slots and strings
    are more than a page, or argv is missing.
  */
  method PassArguments(mem: array<Byte>, from: Word, page: array<Byte>, to: Word, argc: nat, argv: Option<seq<CString>>,
                       envp: Option<seq<CString>>, name: CString)
    returns (ok: bool)
    requires argv.Some? ==> |argv.value| == argc
    requires |name| < PROC_NAME_LEN
    requires PAGE_SIZE <= mem.Length && from + mem.Length <= TWO32 && from != 0 && mem != page
    requires Size(Arguments(argc, argv, name) + Environment(envp)) <= mem.Length
    requires page.Length == PAGE_SIZE && to != 0 && to + PAGE_SIZE <= TWO32
    requires NoNul(name) && (argv.Some? ==> forall k :: 0 <= k < argc ==> NoNul(argv.value[k]))
    requires envp.Some? ==> forall k :: 0 <= k < |envp.value| ==> NoNul(envp.value[k])
    modifies mem, page
    ensures argc > 0 && argv.None? ==> !ok
    ensures argc > 0 && argv.Some? ==>
              (ok <==> 8 + 5 * argc + Chars(argv.value) +
                       (if envp.None? then 0 else 5 * |envp.value| + Chars(envp.value)) <= PAGE_SIZE)
    ensures argc == 0 ==>
              (ok <==> 13 + |name| + (if envp.None? then 0 else 5 * |envp.value| + Chars(envp.value)) <= PAGE_SIZE)
    ensures !ok ==> page[..] == old(page[..])
    ensures ok && argc > 0 ==> WordAt(page[..], 0) == argc && ReadArgs(page[..], to, 0, argc) == argv.value
    ensures ok && argc == 0 ==> WordAt(page[..], 0) == 1 && ReadArgs(page[..], to, 0, 1) == [name]
    ensures ok && envp.Some? ==> ReadEnv(page[..], to, WordAt(page[..], 0)) == envp.value
    ensures ok && envp.None? ==> ReadEnv(page[..], to, WordAt(page[..], 0)) == []
  {
    ghost var args, env := Arguments(argc, argv, name), Environment(envp);
    PassedStrings(argc, argv, envp, name);
    ok := PreserveArgsAndEnv(mem, from, argc, argv, envp, name);
    if ok {
      var envc := PostSetupImage(mem[..PAGE_SIZE], from, page, to, args + env, |args|);
      PageReadsBack(page[..], to, args, env);
    }
  }

  /** Low byte first. */
  lemma WordBytes(m: seq<Byte>, o: nat)
    requires o + 4 <= |m|
    ensures WordAt(m, o) % 0x100 == m[o] && WordAt(m, o) / 0x100 % 0x100 == m[o + 1]
    ensures WordAt(m, o) / 0x1_0000 % 0x100 == m[o + 2] && WordAt(m, o) / 0x100_0000 == m[o + 3]
  {
    var b0: int, b1: int, b2: int, b3: int := m[o], m[o + 1], m[o + 2], m[o + 3];
    Over256(b1 + 0x100 * b2 + 0x1_0000 * b3, b0);
    Over256(b2 + 0x100 * b3, b1);
    Over256(b3, b2);
    assert WordAt(m, o) / 0x1_0000 == WordAt(m, o) / 0x100 / 0x100;
    assert WordAt(m, o) / 0x100_0000 == WordAt(m, o) / 0x100 / 0x100 / 0x100;
  }

  /** One argument and no environment: the longest string that fits has 4083 characters. */
  lemma OneArgumentFits(s: CString)
    ensures Size([s]) <= PAGE_SIZE <==> |s| <= 4083
  {
    assert Off([s], 1) == Off([s], 0) + |s| + 1;
  }
}
