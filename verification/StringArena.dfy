/** The copy of string arguments into a slot's arena (the loop of `Logger::enqueue`). */
module StringArena {
  import opened Arithmetic

  /** Bytes of string data a slot can hold (`kStrBufPerSlot`). */
  const ARENA_SIZE: nat := 256

  /** An argument as the caller hands it over: a `String`-tagged view of the caller's bytes, or anything else. */
  datatype Arg = Text(bytes: seq<Byte>) | Scalar(value: int)

  /** An argument as the slot stores it: a view into the arena, the constant "", or the unchanged other kinds. */
  datatype StoredArg = View(start: nat, len: nat) | EmptyText | Inline(value: int)

  function Concat(args: seq<Arg>): (r: seq<Byte>) {
    if |args| == 0 then []
    else Concat(args[..|args| - 1]) + match args[|args| - 1] case Text(b) => b case Scalar(_) => []
  }

  /** Arena bytes taken by `args`: all their string bytes, or as many as fit. */
  function Used(args: seq<Arg>): (n: nat) {
    Min(|Concat(args)|, ARENA_SIZE)
  }

  function ClipArg(arg: Arg, room: nat): (r: Arg) {
    match arg
    case Text(b) => Text(b[..Min(|b|, room)])
    case Scalar(_) => arg
  }

  /** What a record's arguments look like to the consumer: strings cut where the arena ran out. */
  function Clip(args: seq<Arg>): (r: seq<Arg>)
    ensures |r| == |args|
  {
    if |args| == 0 then []
    else var init := args[..|args| - 1]; Clip(init) + [ClipArg(args[|args| - 1], ARENA_SIZE - Used(init))]
  }

  /** The surviving string bytes are exactly the first `min(total, 256)` bytes of the original ones. */
  lemma {:induction false} ClippedText(args: seq<Arg>)
    ensures Concat(Clip(args)) == Concat(args)[..Used(args)]
  {
    if |args| == 0 {
    } else {
      var init := args[..|args| - 1];
      ClippedText(init);
      assert Clip(args)[..|args| - 1] == Clip(init);
      ClippedTail(Concat(init), args[|args| - 1]);
    }
  }

  lemma ClippedTail(done: seq<Byte>, arg: Arg)
    ensures arg.Text? ==>
              var used := Min(|done|, ARENA_SIZE);
              var all := done + arg.bytes;
              done[..used] + ClipArg(arg, ARENA_SIZE - used).bytes == all[..Min(|all|, ARENA_SIZE)]
  {
  }

  /** Nothing is cut when everything fits, and every string keeps a prefix of itself. */
  lemma {:induction false} ClipKeepsPrefixes(args: seq<Arg>, i: nat)
    requires i < |args|
    ensures args[i].Scalar? ==> Clip(args)[i] == args[i]
    ensures args[i].Text? ==> Clip(args)[i].Text? && Clip(args)[i].bytes <= args[i].bytes
    ensures |Concat(args)| <= ARENA_SIZE ==> Clip(args)[i] == args[i]
  {
    var init := args[..|args| - 1];
    if i < |args| - 1 {
      ClipKeepsPrefixes(init, i);
    }
  }

  function ResolveArg(stored: StoredArg, arena: seq<Byte>): (r: Arg) {
    match stored
    case View(start, len) => if start + len <= |arena| then Text(arena[start..start + len]) else Text([])
    case EmptyText => Text([])
    case Inline(v) => Scalar(v)
  }

  /** The arguments the consumer sees when it follows the stored views into the arena. */
  function Resolve(stored: seq<StoredArg>, arena: seq<Byte>): (r: seq<Arg>)
    ensures |r| == |stored|
    ensures forall i | 0 <= i < |stored| :: r[i] == ResolveArg(stored[i], arena)
  {
    seq(|stored|, i requires 0 <= i < |stored| => ResolveArg(stored[i], arena))
  }

  function StoreArg(arg: Arg, used: nat): (r: StoredArg)
    requires used <= ARENA_SIZE
  {
    match arg
    case Scalar(v) => Inline(v)
    case Text(b) => if Min(|b|, ARENA_SIZE - used) > 0 then View(used, Min(|b|, ARENA_SIZE - used)) else EmptyText
  }

  function FillArena(arg: Arg, used: nat, arena: seq<Byte>): (r: seq<Byte>)
    requires used <= ARENA_SIZE == |arena|
    ensures |r| == |arena|
  {
    match arg
    case Scalar(_) => arena
    case Text(b) => var n := Min(|b|, ARENA_SIZE - used); arena[..used] + b[..n] + arena[used + n..]
  }

  /** The state of the copy loop after the arguments `args`: what is stored resolves to what it should. */
  ghost predicate Copied(args: seq<Arg>, stored: seq<StoredArg>, arena: seq<Byte>) {
    && |arena| == ARENA_SIZE
    && Resolve(stored, arena) == Clip(args)
    && forall i | 0 <= i < |stored| :: stored[i].View? ==> stored[i].start + stored[i].len <= Used(args)
  }

  /** One iteration of the copy loop. */
  lemma CopyOne(args: seq<Arg>, arg: Arg, stored: seq<StoredArg>, arena: seq<Byte>)
    requires Copied(args, stored, arena)
    ensures Copied(args + [arg], stored + [StoreArg(arg, Used(args))], FillArena(arg, Used(args), arena))
  {
    var args', used := args + [arg], Used(args);
    assert args'[..|args|] == args;
    var arena' := FillArena(arg, used, arena);
    assert used <= Used(args');
    assert arena'[..used] == arena[..used];
    var stored' := stored + [StoreArg(arg, used)];
    forall i | 0 <= i < |stored'| ensures Resolve(stored', arena')[i] == Clip(args')[i] {
      if i < |stored| {
        assert ResolveArg(stored[i], arena) == Clip(args)[i];
      } else {
        LastResolves(arg, used, arena);
      }
    }
  }

  /** Arena bytes used after one more argument. */
  function UsedWith(arg: Arg, used: nat): (n: nat)
    requires used <= ARENA_SIZE
  {
    match arg case Text(b) => used + Min(|b|, ARENA_SIZE - used) case Scalar(_) => used
  }

  /** The same iteration, as a step from the first `n` arguments to the first `n + 1`. */
  lemma CopyNext(args: seq<Arg>, n: nat, stored: seq<StoredArg>, arena: seq<Byte>)
    requires n < |args| && Copied(args[..n], stored, arena)
    ensures var used := Used(args[..n]);
            && Copied(args[..n + 1], stored + [StoreArg(args[n], used)], FillArena(args[n], used, arena))
            && Used(args[..n + 1]) == UsedWith(args[n], used)
  {
    assert args[..n] + [args[n]] == args[..n + 1] && args[..n + 1][..n] == args[..n];
    CopyOne(args[..n], args[n], stored, arena);
  }

  lemma LastResolves(arg: Arg, used: nat, arena: seq<Byte>)
    requires used <= ARENA_SIZE == |arena|
    ensures ResolveArg(StoreArg(arg, used), FillArena(arg, used, arena)) == ClipArg(arg, ARENA_SIZE - used)
  {
    if arg.Text? {
      var n := Min(|arg.bytes|, ARENA_SIZE - used);
      assert FillArena(arg, used, arena)[used..used + n] == arg.bytes[..n];
    }
  }

  /** `memcpy` of the first `n` bytes of `bytes` to `arena + start`. */
  method CopyBytes(bytes: seq<Byte>, n: nat, arena: array<Byte>, start: nat)
    requires n <= |bytes| && start + n <= arena.Length
    modifies arena
    ensures arena[..] == old(arena[..start]) + bytes[..n] + old(arena[start + n..])
  {
    forall j | 0 <= j < n {
      arena[start + j] := bytes[j];
    }
  }

  /** The loop itself, run in place on a slot's arena whatever the previous lap left there. */
  method CopyStrings(args: seq<Arg>, arena: array<Byte>) returns (stored: seq<StoredArg>)
    requires arena.Length == ARENA_SIZE
    modifies arena
    ensures Resolve(stored, arena[..]) == Clip(args)
  {
    stored := [];
    var used := 0;
    for i := 0 to |args|
      invariant used == Used(args[..i])
      invariant Copied(args[..i], stored, arena[..])
    {
      ghost var before := arena[..];
      CopyNext(args, i, stored, before);
      stored := stored + [StoreArg(args[i], used)];
      if args[i].Text? {
        var toCopy := Min(|args[i].bytes|, ARENA_SIZE - used);
        CopyBytes(args[i].bytes, toCopy, arena, used);
        assert arena[..] == FillArena(args[i], used, before);
        used := used + toCopy;
      }
    }
    assert args[..|args|] == args;
  }
}
