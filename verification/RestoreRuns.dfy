/** Restoring a snapshot over any number of killed, failed and resumed runs. Every file-system call is
    one step, and a run may end after any of them. */
module RestoreRuns {
  import opened Options
  import opened Bits
  import opened RestoreFile

  type Path = string

  datatype Node = Node(content: seq<byte>, size: Option<nat>, inode: int)

  /** The file nodes of the snapshot by target path. */
  type Plan = map<Path, Node>

  /** Names refer to files, several names possibly to one file. */
  datatype Fs = Fs(names: map<Path, nat>, files: map<nat, seq<byte>>)

  datatype Phase = Idle | Relinking(path: Path, prior: Path) | Writing(path: Path, pos: nat)

  /** The target directory, and the running process: its hard-link map and what it is doing. */
  datatype State = State(fs: Fs, links: map<int, Path>, phase: Phase)

  const Empty: State := State(Fs(map[], map[]), map[], Idle)

  /** The hard-link map takes nodes with one non-zero inode number for one file. */
  ghost predicate Kin(plan: Plan, p: Path, q: Path)
  {
    p in plan && q in plan && (p == q || plan[p].inode == plan[q].inode != 0)
  }

  ghost predicate Exists(fs: Fs, p: Path)
  {
    p in fs.names && fs.names[p] in fs.files
  }

  ghost function Data(fs: Fs, p: Path): seq<byte>
    requires Exists(fs, p)
  {
    fs.files[fs.names[p]]
  }

  /** The resume check: a regular file of exactly the declared size. */
  ghost predicate SizeMatches(n: Node, fs: Fs, p: Path)
  {
    n.size.Some? && Exists(fs, p) && |Data(fs, p)| == n.size.value
  }

  function Registered(links: map<int, Path>, inode: int, p: Path): map<int, Path>
  {
    if inode != 0 && inode !in links then links[inode := p] else links
  }

  // ----- the steps

  datatype Step =
    | Restart
    | Skip(path: Path)
    | Unlink(path: Path, removed: bool)
    | Link
    | Create(path: Path, id: nat)
    | Write(n: nat)
    | Seek(n: nat)
    | Finish(truncated: bool)

  /** A file is created, or cut to nothing if the name exists. */
  ghost function Created(fs: Fs, p: Path, id: nat): Fs
  {
    if p in fs.names then Fs(fs.names, fs.files[fs.names[p] := []])
    else Fs(fs.names[p := id], fs.files[id := []])
  }

  ghost function Rewritten(fs: Fs, p: Path, d: seq<byte>): Fs
    requires p in fs.names
  {
    fs.(files := fs.files[fs.names[p] := d])
  }

  ghost predicate Allowed(plan: Plan, s: State, step: Step)
  {
    match step
    case Restart => true
    case Skip(p) => s.phase.Idle? && p in plan && SizeMatches(plan[p], s.fs, p)
    case Unlink(p, removed) =>
      s.phase.Idle? && p in plan && !SizeMatches(plan[p], s.fs, p) && plan[p].inode != 0 && plan[p].inode in s.links
    case Link =>
      s.phase.Relinking? && s.phase.prior in s.fs.names && s.phase.path !in s.fs.names
    case Create(p, id) =>
      && p in plan && id !in s.fs.files
      && (|| (s.phase.Relinking? && s.phase.path == p)
          || (s.phase.Idle? && !SizeMatches(plan[p], s.fs, p) && (plan[p].inode == 0 || plan[p].inode !in s.links)))
    case Write(n) =>
      s.phase.Writing? && s.phase.path in plan && Exists(s.fs, s.phase.path)
      && s.phase.pos + n <= |plan[s.phase.path].content|
    case Seek(n) =>
      s.phase.Writing? && s.phase.path in plan && s.phase.pos + n <= |plan[s.phase.path].content|
      && AllZero(plan[s.phase.path].content[s.phase.pos..s.phase.pos + n])
    case Finish(truncated) =>
      s.phase.Writing? && s.phase.path in plan && Exists(s.fs, s.phase.path)
      && s.phase.pos == |plan[s.phase.path].content| && (truncated ==> plan[s.phase.path].size.Some?)
  }

  ghost function Next(plan: Plan, s: State, step: Step): State
    requires Allowed(plan, s, step)
  {
    match step
    case Restart => State(s.fs, map[], Idle)
    case Skip(p) => s.(links := Registered(s.links, plan[p].inode, p))
    case Unlink(p, removed) =>
      State(if removed then s.fs.(names := s.fs.names - {p}) else s.fs, s.links, Relinking(p, s.links[plan[p].inode]))
    case Link => State(s.fs.(names := s.fs.names[s.phase.path := s.fs.names[s.phase.prior]]), s.links, Idle)
    case Create(p, id) =>
      State(Created(s.fs, p, id), Registered(s.links, plan[p].inode, p), Writing(p, 0))
    case Write(n) =>
      var p, e := s.phase.path, s.phase.pos + n;
      var chunk := plan[p].content[s.phase.pos..e];
      State(Rewritten(s.fs, p, WriteAt(Data(s.fs, p), s.phase.pos, chunk)), s.links, Writing(p, e))
    case Seek(n) => s.(phase := Writing(s.phase.path, s.phase.pos + n))
    case Finish(truncated) =>
      var p := s.phase.path;
      if truncated then State(Rewritten(s.fs, p, Resize(Data(s.fs, p), plan[p].size.value)), s.links, Idle)
      else s.(phase := Idle)
  }

  // ----- the invariant

  /** A file holds what may stand in it while some node of its kin is being restored. */
  ghost predicate NameOk(plan: Plan, fs: Fs, p: Path)
  {
    Exists(fs, p) && exists r :: Kin(plan, r, p) && SoundFor(plan, r, Data(fs, p))
  }

  ghost predicate SoundFor(plan: Plan, r: Path, d: seq<byte>)
    requires r in plan
  {
    Sound(plan[r].content, plan[r].size, d)
  }

  /** All names of one file are kin. */
  ghost predicate FilesOk(plan: Plan, fs: Fs)
  {
    && (forall p :: p in fs.names ==> NameOk(plan, fs, p))
    && forall p, q :: p in fs.names && q in fs.names && fs.names[p] == fs.names[q] ==> Kin(plan, p, q)
  }

  ghost predicate LinksOk(plan: Plan, links: map<int, Path>)
  {
    forall i :: i in links ==> i != 0 && links[i] in plan && plan[links[i]].inode == i
  }

  ghost predicate PhaseOk(plan: Plan, s: State)
  {
    match s.phase
    case Idle => true
    case Relinking(p, prior) =>
      Kin(plan, p, prior) && !SizeMatches(plan[p], s.fs, p)
    case Writing(p, pos) =>
      && p in plan && Exists(s.fs, p) && pos <= |plan[p].content|
      && Data(s.fs, p) <= plan[p].content[..pos]
      && AllZero(plan[p].content[|Data(s.fs, p)|..pos])
  }

  ghost predicate Inv(plan: Plan, s: State)
  {
    FilesOk(plan, s.fs) && LinksOk(plan, s.links) && PhaseOk(plan, s)
  }

  /** Putting sound content into a file keeps every name of it sound. */
  lemma RewriteKeeps(plan: Plan, fs: Fs, p: Path, d: seq<byte>)
    requires FilesOk(plan, fs) && p in fs.names && p in plan && SoundFor(plan, p, d)
    ensures FilesOk(plan, Rewritten(fs, p, d))
  {
    hide SoundFor;
    var fs' := Rewritten(fs, p, d);
    forall q | q in fs'.names
      ensures NameOk(plan, fs', q)
    {
      assert NameOk(plan, fs, q);
      if fs.names[q] == fs.names[p] {
        assert Kin(plan, p, q) && SoundFor(plan, p, Data(fs', q));
      }
    }
  }

  lemma CreateKeeps(plan: Plan, fs: Fs, p: Path, id: nat)
    requires FilesOk(plan, fs) && p in plan && id !in fs.files
    ensures FilesOk(plan, Created(fs, p, id)) && Exists(Created(fs, p, id), p)
    ensures Data(Created(fs, p, id), p) == []
  {
    assert SoundFor(plan, p, []);
    hide SoundFor;
    if p in fs.names {
      RewriteKeeps(plan, fs, p, []);
      assert Created(fs, p, id) == Rewritten(fs, p, []);
    } else {
      var fs' := Created(fs, p, id);
      forall q | q in fs'.names
        ensures NameOk(plan, fs', q)
      {
        if q == p {
          assert Kin(plan, p, q) && SoundFor(plan, p, Data(fs', q));
        } else {
          assert NameOk(plan, fs, q);
        }
      }
      forall q, r | q in fs'.names && r in fs'.names && fs'.names[q] == fs'.names[r]
        ensures Kin(plan, q, r)
      {
        assert q != p ==> NameOk(plan, fs, q);
        assert r != p ==> NameOk(plan, fs, r);
      }
    }
  }

  lemma LinkKeeps(plan: Plan, fs: Fs, p: Path, prior: Path)
    requires FilesOk(plan, fs) && p !in fs.names && prior in fs.names && Kin(plan, p, prior)
    ensures FilesOk(plan, fs.(names := fs.names[p := fs.names[prior]]))
  {
    hide SoundFor;
    var fs' := fs.(names := fs.names[p := fs.names[prior]]);
    forall q | q in fs'.names
      ensures NameOk(plan, fs', q)
    {
      var q0 := if q == p then prior else q;
      assert NameOk(plan, fs, q0);
      var r :| Kin(plan, r, q0) && SoundFor(plan, r, Data(fs, q0));
      assert Kin(plan, r, q) && SoundFor(plan, r, Data(fs', q));
    }
    forall q, r | q in fs'.names && r in fs'.names && fs'.names[q] == fs'.names[r]
      ensures Kin(plan, q, r)
    {
      assert Kin(plan, if q == p then prior else q, if r == p then prior else r);
    }
  }

  lemma UnlinkKeeps(plan: Plan, fs: Fs, p: Path)
    requires FilesOk(plan, fs)
    ensures FilesOk(plan, fs.(names := fs.names - {p}))
  {
    hide SoundFor;
    var fs' := fs.(names := fs.names - {p});
    forall q | q in fs'.names
      ensures NameOk(plan, fs', q)
    {
      assert NameOk(plan, fs, q);
    }
  }

  lemma ResizeSame(content: seq<byte>, d: seq<byte>, n: nat)
    requires d <= content && AllZero(content[|d|..])
    ensures Resize(d, n) == Resize(content, n)
  {
  }

  /** Every step keeps the invariant. */
  lemma InvNext(plan: Plan, s: State, step: Step)
    requires Inv(plan, s) && Allowed(plan, s, step)
    ensures Inv(plan, Next(plan, s, step))
  {
    hide FilesOk;
    match step
    case Restart =>
    case Skip(p) =>
    case Unlink(p, removed) =>
      UnlinkKeeps(plan, s.fs, p);
    case Link =>
      LinkKeeps(plan, s.fs, s.phase.path, s.phase.prior);
    case Create(p, id) =>
      CreateKeeps(plan, s.fs, p, id);
    case Write(n) =>
      WriteKeeps(plan, s, n);
    case Seek(n) =>
      SeekKeeps(plan, s, n);
    case Finish(truncated) =>
      if truncated {
        var p := s.phase.path;
        ResizeSame(plan[p].content, Data(s.fs, p), plan[p].size.value);
        RewriteKeeps(plan, s.fs, p, Resize(plan[p].content, plan[p].size.value));
      }
  }

  /** A write at the position fills the hole before it with the zeros that belong there. */
  lemma WriteKeeps(plan: Plan, s: State, n: nat)
    requires Inv(plan, s) && Allowed(plan, s, Write(n))
    ensures Inv(plan, Next(plan, s, Write(n)))
    ensures n > 0 ==> var s' := Next(plan, s, Write(n)); var p := s.phase.path;
      Exists(s'.fs, p) && Data(s'.fs, p) == plan[p].content[..s.phase.pos + n]
  {
    hide FilesOk;
    var p, pos := s.phase.path, s.phase.pos;
    var c, d := plan[p].content, Data(s.fs, p);
    var w := WriteAt(d, pos, c[pos..pos + n]);
    if n > 0 {
      assert w == c[..pos + n];
    } else {
      assert w == d == c[..|d|];
    }
    RewriteKeeps(plan, s.fs, p, w);
    assert Rewritten(s.fs, p, w).files[s.fs.names[p]] == w;
  }

  lemma SeekKeeps(plan: Plan, s: State, n: nat)
    requires Inv(plan, s) && Allowed(plan, s, Seek(n))
    ensures Inv(plan, Next(plan, s, Seek(n)))
  {
    hide FilesOk;
    var p, pos := s.phase.path, s.phase.pos;
    var c, d := plan[p].content, Data(s.fs, p);
    assert c[..pos + n][..pos] == c[..pos];
    assert c[|d|..pos + n] == c[|d|..pos] + c[pos..pos + n];
  }

  // ----- whole histories

  /** A history of steps from the empty target, through any number of runs. */
  ghost predicate History(plan: Plan, states: seq<State>, steps: seq<Step>)
  {
    && |states| == |steps| + 1 && states[0] == Empty
    && forall i :: 0 <= i < |steps| ==>
      Allowed(plan, states[i], steps[i]) && states[i + 1] == Next(plan, states[i], steps[i])
  }

  lemma {:induction false} InvAlways(plan: Plan, states: seq<State>, steps: seq<Step>, i: nat)
    requires History(plan, states, steps) && i < |states|
    ensures Inv(plan, states[i])
  {
    if i > 0 {
      InvAlways(plan, states, steps, i - 1);
      InvNext(plan, states[i - 1], steps[i - 1]);
    }
  }

  // ----- when the size-only resume check is sound

  /** A file of its node's declared size that does not hold the node's content. */
  ghost predicate WronglyFinished(plan: Plan, s: State, p: Path)
  {
    p in plan && SizeMatches(plan[p], s.fs, p) && Data(s.fs, p) != Resize(plan[p].content, plan[p].size.value)
  }

  /** No beginning of `a`'s content, nor its finished file, passes for `b`'s file without being it. */
  predicate Harmless(a: Node, b: Node)
  {
    b.size.Some? ==>
      var n := b.size.value;
      && (n <= |a.content| ==> a.content[..n] == Resize(b.content, n))
      && (a.size == Some(n) ==> Resize(a.content, n) == Resize(b.content, n))
  }

  /** Nodes that share a non-zero inode number are harmless to each other. */
  ghost predicate Compatible(plan: Plan)
  {
    forall p, q :: Kin(plan, p, q) ==> Harmless(plan[p], plan[q])
  }

  ghost predicate Fooled(plan: Plan, states: seq<State>, steps: seq<Step>, i: nat, p: Path)
  {
    History(plan, states, steps) && i < |states| && WronglyFinished(plan, states[i], p)
  }

  /** In a compatible plan, at every moment of every history, a file whose size is its node's size holds
      exactly the node's content at that size. */
  lemma CompatibleSound(plan: Plan, states: seq<State>, steps: seq<Step>, i: nat, p: Path)
    requires Compatible(plan) && History(plan, states, steps) && i < |states|
    requires p in plan && SizeMatches(plan[p], states[i].fs, p)
    ensures Data(states[i].fs, p) == Resize(plan[p].content, plan[p].size.value)
  {
    InvAlways(plan, states, steps, i);
    assert NameOk(plan, states[i].fs, p);
    var d := Data(states[i].fs, p);
    var r :| Kin(plan, r, p) && SoundFor(plan, r, d);
    assert Harmless(plan[r], plan[p]);
    if d <= plan[r].content {
      assert d == plan[r].content[..|d|];
    }
  }

  /** The state after `p` alone has been restored, and after `q` has been linked to it. */
  ghost function Restored(plan: Plan, p: Path): State
    requires p in plan && plan[p].size.Some?
  {
    State(Fs(map[p := 0], map[0 := Resize(plan[p].content, plan[p].size.value)]), map[plan[p].inode := p], Idle)
  }

  ghost function Shared(plan: Plan, p: Path, q: Path): State
    requires p in plan && plan[p].size.Some?
  {
    var s := Restored(plan, p);
    s.(fs := s.fs.(names := map[p := 0, q := 0]))
  }

  lemma RestoreOne(plan: Plan, p: Path) returns (s1: State, s2: State)
    requires p in plan && plan[p].inode != 0 && plan[p].size.Some?
    ensures Allowed(plan, Empty, Create(p, 0)) && s1 == Next(plan, Empty, Create(p, 0))
    ensures Allowed(plan, s1, Write(|plan[p].content|)) && s2 == Next(plan, s1, Write(|plan[p].content|))
    ensures Allowed(plan, s2, Finish(true)) && Next(plan, s2, Finish(true)) == Restored(plan, p)
  {
    var c := plan[p].content;
    s1 := Next(plan, Empty, Create(p, 0));
    assert c[0..|c|] == c && Resize([], 0) == [];
    assert WriteAt([], 0, c) == c;
    s2 := Next(plan, s1, Write(|c|));
    var s3 := Next(plan, s2, Finish(true));
    assert s3.fs.files == map[0 := Resize(c, plan[p].size.value)];
  }

  /** Restoring `p` and then `q` of the same inode number leaves one file with two names. */
  lemma ShareOne(plan: Plan, p: Path, q: Path) returns (states: seq<State>, steps: seq<Step>)
    requires Kin(plan, p, q) && p != q && plan[p].size.Some?
    ensures History(plan, states, steps) && |steps| == 5 && states[5] == Shared(plan, p, q)
  {
    steps := [Create(p, 0), Write(|plan[p].content|), Finish(true), Unlink(q, true), Link];
    var s1, s2 := RestoreOne(plan, p);
    var s3 := Restored(plan, p);
    var s4 := State(s3.fs, s3.links, Relinking(q, p));
    assert s3.fs.names - {q} == s3.fs.names;
    assert Allowed(plan, s3, steps[3]) && Next(plan, s3, steps[3]) == s4;
    assert Next(plan, s4, steps[4]).fs.names == map[p := 0, q := 0];
    states := [Empty, s1, s2, s3, s4, Shared(plan, p, q)];
  }

  lemma Extend(plan: Plan, states: seq<State>, steps: seq<Step>, step: Step)
    requires History(plan, states, steps) && Allowed(plan, states[|steps|], step)
    ensures History(plan, states + [Next(plan, states[|steps|], step)], steps + [step])
  {
    hide Allowed;
    hide Next;
  }

  /** After a restart the second name of a shared file is restored through it, from nothing. */
  lemma ShareAndRewrite(plan: Plan, p: Path, q: Path, n: nat) returns (states: seq<State>, steps: seq<Step>)
    requires Kin(plan, p, q) && p != q && plan[p].size.Some? && plan[q].size != plan[p].size
    requires n <= |plan[q].content|
    ensures History(plan, states, steps) && |steps| == 8 && steps[6] == Create(q, 1)
    ensures states[6] == Shared(plan, p, q).(links := map[])
    ensures states[7].fs == Fs(map[p := 0, q := 0], map[0 := []]) && states[7].phase == Writing(q, 0)
    ensures states[8].fs == Fs(map[p := 0, q := 0], map[0 := plan[q].content[..n]]) && states[8].phase == Writing(q, n)
  {
    hide Allowed;
    hide Next;
    states, steps := ShareOne(plan, p, q);
    var s7, s8 := RewriteShared(plan, p, q, n);
    Extend(plan, states, steps, Restart);
    states, steps := states + [Shared(plan, p, q).(links := map[])], steps + [Restart];
    Extend(plan, states, steps, Create(q, 1));
    states, steps := states + [s7], steps + [Create(q, 1)];
    Extend(plan, states, steps, Write(n));
    states, steps := states + [s8], steps + [Write(n)];
  }

  lemma RewriteShared(plan: Plan, p: Path, q: Path, n: nat) returns (s7: State, s8: State)
    requires Kin(plan, p, q) && p != q && plan[p].size.Some? && plan[q].size != plan[p].size
    requires n <= |plan[q].content|
    ensures Allowed(plan, Shared(plan, p, q), Restart)
    ensures var s6 := Shared(plan, p, q).(links := map[]);
      && Next(plan, Shared(plan, p, q), Restart) == s6
      && Allowed(plan, s6, Create(q, 1)) && s7 == Next(plan, s6, Create(q, 1))
    ensures s7.fs == Fs(map[p := 0, q := 0], map[0 := []]) && s7.phase == Writing(q, 0)
    ensures Allowed(plan, s7, Write(n)) && s8 == Next(plan, s7, Write(n))
    ensures s8.fs == Fs(map[p := 0, q := 0], map[0 := plan[q].content[..n]]) && s8.phase == Writing(q, n)
  {
    var s6 := Shared(plan, p, q).(links := map[]);
    s7 := Next(plan, s6, Create(q, 1));
    assert s7.fs.files == map[0 := []];
    var c := plan[q].content[0..n];
    assert c == plan[q].content[..n] && Resize([], 0) == [] && WriteAt([], 0, c) == c;
    s8 := Next(plan, s7, Write(n));
    assert s8.fs.files == map[0 := c];
  }

  /** Nodes of one inode number that are not harmless can fool the resume check: the second is linked to
      the finished file of the first, or the first is written again through the file they share. */
  lemma InodeClash(plan: Plan, p: Path, q: Path)
    requires Kin(plan, p, q) && !Harmless(plan[p], plan[q])
    ensures exists states, steps, i: nat :: Fooled(plan, states, steps, i, q)
  {
    var n := plan[q].size.value;
    if plan[p].size == Some(n) {
      var states, steps := ShareOne(plan, p, q);
      assert Fooled(plan, states, steps, 5, q);
    } else {
      var states, steps := ShareAndRewrite(plan, q, p, n);
      assert Fooled(plan, states, steps, 8, q);
    }
  }

  /** The size-only resume check is sound, at every moment of every history of killed, failed and resumed
      runs, exactly when the plan is compatible. */
  lemma ResumeSound(plan: Plan)
    ensures Compatible(plan) <==> !exists states, steps, i: nat, p :: Fooled(plan, states, steps, i, p)
  {
    if Compatible(plan) {
      forall states, steps, i: nat, p | Fooled(plan, states, steps, i, p)
        ensures false
      {
        CompatibleSound(plan, states, steps, i, p);
      }
    } else {
      var p, q :| Kin(plan, p, q) && !Harmless(plan[p], plan[q]);
      InodeClash(plan, p, q);
    }
  }

  // ----- when finished files stay finished

  /** Writing `b` through a file it shares with a finished `a` cannot unfinish it. */
  predicate Stable(a: Node, b: Node)
  {
    a.size.Some? ==>
      || (b.size == a.size && |b.content| <= a.size.value)
      || (a.size == Some(0) && b.content == [] && b.size.None?)
  }

  ghost predicate AllStable(plan: Plan)
  {
    forall p, q :: Kin(plan, p, q) ==> Stable(plan[p], plan[q])
  }

  ghost predicate LosesProgress(plan: Plan, states: seq<State>, steps: seq<Step>, i: nat, p: Path)
  {
    && History(plan, states, steps) && i < |steps| && p in plan
    && SizeMatches(plan[p], states[i].fs, p) && !SizeMatches(plan[p], states[i + 1].fs, p)
  }

  lemma KeepsFinished(plan: Plan, s: State, step: Step, p: Path)
    requires AllStable(plan) && Inv(plan, s) && Allowed(plan, s, step)
    requires p in plan && SizeMatches(plan[p], s.fs, p)
    ensures SizeMatches(plan[p], Next(plan, s, step).fs, p)
  {
    hide Sound;
    var q := if step.Create? then step.path else if s.phase.Writing? then s.phase.path else p;
    if q in s.fs.names && s.fs.names[q] == s.fs.names[p] {
      assert Kin(plan, p, q);
      assert Stable(plan[p], plan[q]);
    }
  }

  /** Once finished, a file is finished in every later state: kills, failures and resumes lose no progress. */
  lemma {:induction false} FinishedStays(plan: Plan, states: seq<State>, steps: seq<Step>, i: nat, j: nat, p: Path)
    requires AllStable(plan) && History(plan, states, steps) && i <= j < |states|
    requires p in plan && SizeMatches(plan[p], states[i].fs, p)
    ensures SizeMatches(plan[p], states[j].fs, p)
  {
    if i < j {
      FinishedStays(plan, states, steps, i, j - 1, p);
      InvAlways(plan, states, steps, j - 1);
      KeepsFinished(plan, states[j - 1], steps[j - 1], p);
    }
  }

  /** A node that declares less than its content passes through its declared size while it is written. */
  lemma ShortSizeLoses(plan: Plan, p: Path)
    requires p in plan && plan[p].size.Some? && plan[p].size.value < |plan[p].content|
    ensures exists states, steps, i: nat :: LosesProgress(plan, states, steps, i, p)
  {
    var n, c := plan[p].size.value, plan[p].content;
    var steps := [Create(p, 0), Write(n), Write(1)];
    assert Allowed(plan, Empty, steps[0]);
    var s1 := Next(plan, Empty, steps[0]);
    assert Data(s1.fs, p) == [] && Resize([], 0) == [];
    assert |WriteAt([], 0, c[0..n])| == n;
    var s2 := Next(plan, s1, steps[1]);
    assert |Data(s2.fs, p)| == n;
    var s3 := Next(plan, s2, steps[2]);
    assert |Data(s3.fs, p)| == n + 1;
    assert History(plan, [Empty, s1, s2, s3], steps);
    assert LosesProgress(plan, [Empty, s1, s2, s3], steps, 2, p);
  }

  /** A finished file is cut off when another size or content is restored through it. */
  lemma SharedSizeLoses(plan: Plan, p: Path, q: Path)
    requires Kin(plan, p, q) && plan[p].size.Some? && plan[q].size != plan[p].size
    requires !(plan[p].size == Some(0) && plan[q].content == [] && plan[q].size.None?)
    ensures exists states, steps, i: nat :: LosesProgress(plan, states, steps, i, p)
  {
    var c := plan[q].content;
    var states, steps := ShareAndRewrite(plan, p, q, |c|);
    if plan[p].size.value > 0 {
      assert LosesProgress(plan, states, steps, 6, p);
    } else if c != [] {
      assert LosesProgress(plan, states, steps, 7, p);
    } else {
      var s9 := Next(plan, states[8], Finish(true));
      assert |Data(s9.fs, p)| == plan[q].size.value;
      Extend(plan, states, steps, Finish(true));
      assert LosesProgress(plan, states + [s9], steps + [Finish(true)], 8, p);
    }
  }

  /** No finished file is ever lost again, through any history, exactly when all kin are stable. */
  lemma ProgressKept(plan: Plan)
    ensures AllStable(plan) <==> !exists states, steps, i: nat, p :: LosesProgress(plan, states, steps, i, p)
  {
    if AllStable(plan) {
      forall states, steps, i: nat, p | LosesProgress(plan, states, steps, i, p)
        ensures false
      {
        FinishedStays(plan, states, steps, i, i + 1, p);
      }
    } else {
      var p, q :| Kin(plan, p, q) && !Stable(plan[p], plan[q]);
      if plan[q].size == plan[p].size {
        ShortSizeLoses(plan, q);
      } else {
        SharedSizeLoses(plan, p, q);
      }
    }
  }
}
