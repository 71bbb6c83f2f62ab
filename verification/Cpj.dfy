/**
  * The cobegin blocks of lib/cpj.h: processes over one shared memory, every interleaving of
  * their single reads and writes, and the sequential run that each of them agrees with.
  */
module Cpj {

  /**
    * What is left to do. The code after a read is a function of the value read, so local
    * variables need no store. A cobegin runs its coroutines in any interleaving, and goes on
    * with next when all are done; longer blocks nest.
    */
  datatype Process =
    | Done
    | Load(at: nat, rest: int -> Process)
    | Store(at: nat, value: int, next: Process)
    | Cobegin(left: Process, right: Process, next: Process)

  /** One read, one write or one join, by any coroutine that can move. */
  ghost predicate Step(p: Process, m: seq<int>, p': Process, m': seq<int>) {
    match p
    case Done => false
    case Load(l, k) => l < |m| && p' == k(m[l]) && m' == m
    case Store(l, v, k) => l < |m| && p' == k && m' == m[l := v]
    case Cobegin(a, b, k) =>
      || (a.Done? && b.Done? && p' == k && m' == m)
      || (p'.Cobegin? && p'.right == b && p'.next == k && Step(a, m, p'.left, m'))
      || (p'.Cobegin? && p'.left == a && p'.next == k && Step(b, m, p'.right, m'))
  }

  /** Every step of a coroutine is one of the cobegin, however far the other coroutine is. */
  lemma BothMove(a: Process, b: Process, k: Process, m: seq<int>, p': Process, m': seq<int>)
    ensures Step(a, m, p', m') ==> Step(Cobegin(a, b, k), m, Cobegin(p', b, k), m')
    ensures Step(b, m, p', m') ==> Step(Cobegin(a, b, k), m, Cobegin(a, p', k), m')
  {
  }

  /** A cobegin of four coroutines. */
  function Cobegin4(a: Process, b: Process, c: Process, d: Process, next: Process): (p: Process) {
    Cobegin(a, Cobegin(b, Cobegin(c, d, Done), Done), next)
  }

  /** Every step of each of the four is one of the cobegin. */
  lemma AllMove(a: Process, b: Process, c: Process, d: Process, k: Process, m: seq<int>, p': Process, m': seq<int>)
    ensures Step(a, m, p', m') ==> Step(Cobegin4(a, b, c, d, k), m, Cobegin4(p', b, c, d, k), m')
    ensures Step(b, m, p', m') ==> Step(Cobegin4(a, b, c, d, k), m, Cobegin4(a, p', c, d, k), m')
    ensures Step(c, m, p', m') ==> Step(Cobegin4(a, b, c, d, k), m, Cobegin4(a, b, p', d, k), m')
    ensures Step(d, m, p', m') ==> Step(Cobegin4(a, b, c, d, k), m, Cobegin4(a, b, c, p', k), m')
  {
    BothMove(c, d, Done, m, p', m');
  }

  ghost predicate CanStep(p: Process, m: seq<int>) {
    exists p', m' :: Step(p, m, p', m')
  }

  /** Each of the four can take the next step of the cobegin. */
  ghost predicate AnyFirst(a: Process, b: Process, c: Process, d: Process, k: Process, m: seq<int>) {
    && (exists p', m' :: Step(a, m, p', m') && Step(Cobegin4(a, b, c, d, k), m, Cobegin4(p', b, c, d, k), m'))
    && (exists p', m' :: Step(b, m, p', m') && Step(Cobegin4(a, b, c, d, k), m, Cobegin4(a, p', c, d, k), m'))
    && (exists p', m' :: Step(c, m, p', m') && Step(Cobegin4(a, b, c, d, k), m, Cobegin4(a, b, p', d, k), m'))
    && (exists p', m' :: Step(d, m, p', m') && Step(Cobegin4(a, b, c, d, k), m, Cobegin4(a, b, c, p', k), m'))
  }

  lemma AnyCanBeFirst(a: Process, b: Process, c: Process, d: Process, k: Process, m: seq<int>)
    requires CanStep(a, m) && CanStep(b, m) && CanStep(c, m) && CanStep(d, m)
    ensures AnyFirst(a, b, c, d, k, m)
  {
    hide Step, Cobegin4;
    var p, m' :| Step(a, m, p, m');
    AllMove(a, b, c, d, k, m, p, m');
    p, m' :| Step(b, m, p, m');
    AllMove(a, b, c, d, k, m, p, m');
    p, m' :| Step(c, m, p, m');
    AllMove(a, b, c, d, k, m, p, m');
    p, m' :| Step(d, m, p, m');
    AllMove(a, b, c, d, k, m, p, m');
  }

  datatype State = State(code: Process, memory: seq<int>)

  /** An interleaving, from its first state on. */
  ghost predicate IsRun(t: seq<State>) {
    && t != []
    && forall i :: 0 < i < |t| ==> Step(t[i - 1].code, t[i - 1].memory, t[i].code, t[i].memory)
  }

  /** The memory after running the coroutines of every cobegin in order, n bounding the depth of the code. */
  function Exec(p: Process, n: nat, m: seq<int>): (r: seq<int>)
    ensures |r| == |m|
    decreases n
  {
    if n == 0 then m else
    match p
    case Done => m
    case Load(l, k) => if l < |m| then Exec(k(m[l]), n - 1, m) else m
    case Store(l, v, k) => if l < |m| then Exec(k, n - 1, m[l := v]) else m
    case Cobegin(a, b, k) => Exec(k, n - 1, Exec(b, n - 1, Exec(a, n - 1, m)))
  }

  /** The sequential run itself. */
  method RunInOrder(p: Process, n: nat, mem: array<int>)
    modifies mem
    ensures mem[..] == Exec(p, n, old(mem[..]))
    decreases n
  {
    if n > 0 {
      match p
      case Done =>
      case Load(l, k) =>
        if l < mem.Length {
          RunInOrder(k(mem[l]), n - 1, mem);
        }
      case Store(l, v, k) =>
        if l < mem.Length {
          mem[l] := v;
          RunInOrder(k, n - 1, mem);
        }
      case Cobegin(a, b, k) =>
        RunInOrder(a, n - 1, mem);
        RunInOrder(b, n - 1, mem);
        RunInOrder(k, n - 1, mem);
    }
  }

  /** How a cobegin shares out its steps and what its two coroutines may access and write. */
  datatype Share = Share(a: nat, b: nat, k: nat, accessA: set<nat>, writeA: set<nat>, accessB: set<nat>,
                         writeB: set<nat>)

  /**
    * Whatever values p reads, it takes at most n steps, accesses only the given addresses, and
    * writes only the given ones; and no coroutine writes what one beside it accesses.
    */
  ghost predicate Safe(p: Process, n: nat, access: set<nat>, write: set<nat>)
    decreases n, 1
  {
    && write <= access
    && (p.Done? || n > 0)
    && match p
       case Done => true
       case Load(l, k) => l in access && forall v :: Safe(k(v), n - 1, access, write)
       case Store(l, _, k) => l in write && Safe(k, n - 1, access, write)
       case Cobegin(_, _, _) => exists s :: SafeShare(p, s, n, access, write)
  }

  ghost predicate SafeShare(p: Process, s: Share, n: nat, access: set<nat>, write: set<nat>)
    requires p.Cobegin?
    decreases n, 0
  {
    && s.a + s.b + s.k < n
    && s.accessA <= access && s.accessB <= access && s.writeA <= write && s.writeB <= write
    && s.writeA !! s.accessB && s.writeB !! s.accessA
    && Safe(p.left, s.a, s.accessA, s.writeA)
    && Safe(p.right, s.b, s.accessB, s.writeB)
    && Safe(p.next, s.k, access, write)
  }

  ghost predicate Inside(access: set<nat>, m: seq<int>) {
    forall l <- access :: l < |m|
  }

  ghost predicate AgreeOn(m: seq<int>, e: seq<int>, access: set<nat>) {
    |m| == |e| && forall l | 0 <= l < |m| && l in access :: m[l] == e[l]
  }

  ghost predicate AgreeOff(m: seq<int>, e: seq<int>, write: set<nat>) {
    |m| == |e| && forall l | 0 <= l < |m| && l !in write :: m[l] == e[l]
  }

  lemma SafeLoad(p: Process, n: nat, access: set<nat>, write: set<nat>, v: int)
    requires Safe(p, n, access, write) && p.Load?
    ensures n > 0 && Safe((p.rest)(v), n - 1, access, write)
  {
  }

  /** Two footprints inside a third, neither of which writes what the other accesses. */
  ghost predicate Beside(accessA: set<nat>, writeA: set<nat>, accessB: set<nat>, writeB: set<nat>, access: set<nat>,
                         write: set<nat>) {
    && accessA <= access && accessB <= access && writeA <= write && writeB <= write <= access
    && writeA !! accessB && writeB !! accessA
  }

  /** Two processes, neither of which writes what the other accesses, make a safe cobegin. */
  lemma SafeCobegin(a: Process, na: nat, accessA: set<nat>, writeA: set<nat>,
                    b: Process, nb: nat, accessB: set<nat>, writeB: set<nat>,
                    next: Process, nk: nat, access: set<nat>, write: set<nat>, n: nat)
    returns (s: Share)
    requires Safe(a, na, accessA, writeA) && Safe(b, nb, accessB, writeB) && Safe(next, nk, access, write)
    requires na + nb + nk < n && Beside(accessA, writeA, accessB, writeB, access, write)
    ensures s == Share(na, nb, nk, accessA, writeA, accessB, writeB)
    ensures SafeShare(Cobegin(a, b, next), s, n, access, write)
    ensures Safe(Cobegin(a, b, next), n, access, write)
  {
    s := Share(na, nb, nk, accessA, writeA, accessB, writeB);
    assert SafeShare(Cobegin(a, b, next), s, n, access, write);
  }

  lemma SafeDone(access: set<nat>, write: set<nat>)
    requires write <= access
    ensures Safe(Done, 0, access, write)
  {
  }

  /** More steps and a wider footprint are as safe. */
  lemma {:induction false} SafeMore(p: Process, n: nat, access: set<nat>, write: set<nat>, n': nat, access': set<nat>,
                                    write': set<nat>)
    requires Safe(p, n, access, write) && n <= n' && access <= access' && write <= write' <= access'
    ensures Safe(p, n', access', write')
    decreases n
  {
    match p
    case Done =>
    case Load(l, k) =>
      forall v
        ensures Safe(k(v), n' - 1, access', write')
      {
        SafeMore(k(v), n - 1, access, write, n' - 1, access', write');
      }
    case Store(l, v, k) => SafeMore(k, n - 1, access, write, n' - 1, access', write');
    case Cobegin(a, b, k) =>
      var s :| SafeShare(p, s, n, access, write);
      SafeMore(k, s.k, access, write, s.k, access', write');
      assert SafeShare(p, s, n', access', write');
  }

  /** The bound is only a bound: the sequential run does not depend on it. */
  lemma {:induction false} ExecMore(p: Process, n: nat, access: set<nat>, write: set<nat>, n': nat, m: seq<int>)
    requires Safe(p, n, access, write) && n <= n'
    ensures Exec(p, n', m) == Exec(p, n, m)
    decreases n
  {
    match p
    case Done =>
    case Load(l, k) =>
      if l < |m| {
        SafeLoad(p, n, access, write, m[l]);
        ExecMore(k(m[l]), n - 1, access, write, n' - 1, m);
      }
    case Store(l, v, k) => if l < |m| { ExecMore(k, n - 1, access, write, n' - 1, m[l := v]); }
    case Cobegin(a, b, k) =>
      var s :| SafeShare(p, s, n, access, write);
      ExecShare(p, s, n, access, write, n', m);
      ExecShare(p, s, n, access, write, n, m);
  }

  /** The sequential run of a cobegin, each part at its own bound. */
  lemma {:induction false} ExecShare(p: Process, s: Share, n: nat, access: set<nat>, write: set<nat>, n': nat,
                                     m: seq<int>)
    requires p.Cobegin? && SafeShare(p, s, n, access, write) && n <= n'
    ensures Exec(p, n', m) == Exec(p.next, s.k, Exec(p.right, s.b, Exec(p.left, s.a, m)))
    decreases n, 0
  {
    var ma := Exec(p.left, s.a, m);
    var mb := Exec(p.right, s.b, ma);
    ExecMore(p.left, s.a, s.accessA, s.writeA, n' - 1, m);
    ExecMore(p.right, s.b, s.accessB, s.writeB, n' - 1, ma);
    ExecMore(p.next, s.k, access, write, n' - 1, mb);
  }

  /** The sequential run changes nothing outside the written addresses. */
  lemma {:induction false} ExecWrites(p: Process, n: nat, access: set<nat>, write: set<nat>, m: seq<int>)
    requires Safe(p, n, access, write)
    ensures AgreeOff(Exec(p, n, m), m, write)
    decreases n
  {
    match p
    case Done =>
    case Load(l, k) =>
      if l < |m| {
        SafeLoad(p, n, access, write, m[l]);
        ExecWrites(k(m[l]), n - 1, access, write, m);
      }
    case Store(l, v, k) => if l < |m| { ExecWrites(k, n - 1, access, write, m[l := v]); }
    case Cobegin(a, b, k) =>
      var s :| SafeShare(p, s, n, access, write);
      ExecShare(p, s, n, access, write, n, m);
      var ma := Exec(a, s.a, m);
      var mb := Exec(b, s.b, ma);
      ExecWrites(a, s.a, s.accessA, s.writeA, m);
      ExecWrites(b, s.b, s.accessB, s.writeB, ma);
      ExecWrites(k, s.k, access, write, mb);
  }

  /** The sequential run depends on nothing outside the accessed addresses. */
  lemma {:induction false} ExecReads(p: Process, n: nat, access: set<nat>, write: set<nat>, m: seq<int>, e: seq<int>)
    requires Safe(p, n, access, write) && Inside(access, m) && AgreeOn(m, e, access)
    ensures AgreeOn(Exec(p, n, m), Exec(p, n, e), access)
    decreases n, 0
  {
    match p
    case Done =>
    case Load(l, k) => ExecReads(k(m[l]), n - 1, access, write, m, e);
    case Store(l, v, k) => ExecReads(k, n - 1, access, write, m[l := v], e[l := v]);
    case Cobegin(a, b, k) =>
      var s :| SafeShare(p, s, n, access, write);
      ExecShare(p, s, n, access, write, n, m);
      ExecShare(p, s, n, access, write, n, e);
      var ma, ea := Exec(a, s.a, m), Exec(a, s.a, e);
      ExecLocal(a, s.a, s.accessA, s.writeA, access, m, e);
      ExecLocal(b, s.b, s.accessB, s.writeB, access, ma, ea);
      ExecReads(k, s.k, access, write, Exec(b, s.b, ma), Exec(b, s.b, ea));
  }

  /** Agreement is kept on any set around the footprint. */
  lemma {:induction false} ExecLocal(p: Process, n: nat, access: set<nat>, write: set<nat>, around: set<nat>,
                                     m: seq<int>, e: seq<int>)
    requires Safe(p, n, access, write) && access <= around && Inside(around, m) && AgreeOn(m, e, around)
    ensures AgreeOn(Exec(p, n, m), Exec(p, n, e), around)
    decreases n, 1
  {
    ExecReads(p, n, access, write, m, e);
    ExecWrites(p, n, access, write, m);
    ExecWrites(p, n, access, write, e);
  }

  /** A step writes at most inside its footprint, and can be taken in any memory that agrees there. */
  lemma {:induction false} StepElsewhere(p: Process, n: nat, access: set<nat>, write: set<nat>, m: seq<int>,
                                         p': Process, m': seq<int>, e: seq<int>)
    returns (e': seq<int>)
    requires Safe(p, n, access, write) && Step(p, m, p', m') && AgreeOn(m, e, access)
    ensures Step(p, e, p', e') && AgreeOn(m', e', access) && AgreeOff(e', e, write) && AgreeOff(m', m, write)
    decreases p
  {
    match p
    case Load(l, k) => e' := e;
    case Store(l, v, k) => e' := e[l := v];
    case Cobegin(a, b, k) =>
      var s :| SafeShare(p, s, n, access, write);
      if a.Done? && b.Done? && p' == k && m' == m {
        e' := e;
      } else if p'.Cobegin? && p'.right == b && p'.next == k && Step(a, m, p'.left, m') {
        e' := StepElsewhere(a, s.a, s.accessA, s.writeA, m, p'.left, m', e);
      } else {
        e' := StepElsewhere(b, s.b, s.accessB, s.writeB, m, p'.right, m', e);
      }
  }

  /** A step of the right coroutine commutes with the whole of the left one. */
  lemma StepAfter(a: Process, n: nat, accessA: set<nat>, writeA: set<nat>, accessB: set<nat>, writeB: set<nat>,
                  m: seq<int>, m': seq<int>, e': seq<int>)
    requires Safe(a, n, accessA, writeA) && Inside(accessA, m)
    requires writeB <= accessB && writeB !! accessA && writeA !! accessB
    requires AgreeOff(m', m, writeB) && AgreeOn(m', e', accessB) && AgreeOff(e', Exec(a, n, m), writeB)
    ensures e' == Exec(a, n, m')
  {
    ExecWrites(a, n, accessA, writeA, m);
    ExecWrites(a, n, accessA, writeA, m');
    ExecReads(a, n, accessA, writeA, m, m');
    var e, r := Exec(a, n, m), Exec(a, n, m');
    forall l | 0 <= l < |m|
      ensures e'[l] == r[l]
    {
      if l in writeA {
        assert l !in writeB && e'[l] == e[l];
      } else if l in writeB {
        assert l in accessB && e'[l] == m'[l];
      } else {
        assert e'[l] == e[l] == m[l] == m'[l];
      }
    }
  }

  /** Every step, by whichever coroutine, keeps the footprint and the sequential outcome, and uses up the bound. */
  lemma {:induction false} StepPreserves(p: Process, n: nat, access: set<nat>, write: set<nat>, m: seq<int>,
                                         p': Process, m': seq<int>)
    requires Safe(p, n, access, write) && Inside(access, m) && Step(p, m, p', m')
    ensures n > 0 && |m'| == |m| && Safe(p', n - 1, access, write)
    ensures Exec(p', n - 1, m') == Exec(p, n, m)
    decreases p
  {
    match p
    case Load(l, k) => SafeLoad(p, n, access, write, m[l]);
    case Store(l, v, k) =>
    case Cobegin(a, b, k) =>
      var s :| SafeShare(p, s, n, access, write);
      ExecShare(p, s, n, access, write, n, m);
      if a.Done? && b.Done? && p' == k && m' == m {
        SafeMore(k, s.k, access, write, n - 1, access, write);
        ExecMore(k, s.k, access, write, n - 1, m);
      } else if p'.Cobegin? && p'.right == b && p'.next == k && Step(a, m, p'.left, m') {
        StepPreserves(a, s.a, s.accessA, s.writeA, m, p'.left, m');
        var s' := s.(a := s.a - 1);
        assert SafeShare(p', s', n - 1, access, write);
        ExecShare(p', s', n - 1, access, write, n - 1, m');
      } else {
        RightPreserves(p, s, n, access, write, m, p', m');
      }
  }

  lemma {:induction false} RightPreserves(p: Process, s: Share, n: nat, access: set<nat>, write: set<nat>,
                                          m: seq<int>, p': Process, m': seq<int>)
    requires p.Cobegin? && SafeShare(p, s, n, access, write) && Inside(access, m)
    requires p'.Cobegin? && p'.left == p.left && p'.next == p.next && Step(p.right, m, p'.right, m')
    ensures n > 0 && |m'| == |m| && Safe(p', n - 1, access, write)
    ensures Exec(p', n - 1, m') == Exec(p, n, m)
    decreases p, 0
  {
    var e := Exec(p.left, s.a, m);
    ExecWrites(p.left, s.a, s.accessA, s.writeA, m);
    var e' := StepElsewhere(p.right, s.b, s.accessB, s.writeB, m, p'.right, m', e);
    StepAfter(p.left, s.a, s.accessA, s.writeA, s.accessB, s.writeB, m, m', e');
    StepPreserves(p.right, s.b, s.accessB, s.writeB, e, p'.right, e');
    var s' := s.(b := s.b - 1);
    assert SafeShare(p', s', n - 1, access, write);
    ExecShare(p, s, n, access, write, n, m);
    ExecShare(p', s', n - 1, access, write, n - 1, m');
  }

  /** A process that is not done can move: no access leaves the memory, and no join waits for ever. */
  lemma {:induction false} Progress(p: Process, n: nat, access: set<nat>, write: set<nat>, m: seq<int>)
    returns (p': Process, m': seq<int>)
    requires Safe(p, n, access, write) && Inside(access, m) && !p.Done?
    ensures Step(p, m, p', m')
    decreases p
  {
    match p
    case Load(l, k) => p', m' := k(m[l]), m;
    case Store(l, v, k) => p', m' := k, m[l := v];
    case Cobegin(a, b, k) =>
      var s :| SafeShare(p, s, n, access, write);
      if !a.Done? {
        p', m' := Progress(a, s.a, s.accessA, s.writeA, m);
        p' := Cobegin(p', b, k);
      } else if !b.Done? {
        p', m' := Progress(b, s.b, s.accessB, s.writeB, m);
        p' := Cobegin(a, p', k);
      } else {
        p', m' := k, m;
      }
  }

  /** Each coroutine of a cobegin that is not done can move, whatever the other one has done. */
  lemma EachMoves(p: Process, n: nat, access: set<nat>, write: set<nat>, m: seq<int>)
    requires p.Cobegin? && Safe(p, n, access, write) && Inside(access, m)
    ensures !p.left.Done? ==> exists a', m' :: Step(p.left, m, a', m') && Step(p, m, p.(left := a'), m')
    ensures !p.right.Done? ==> exists b', m' :: Step(p.right, m, b', m') && Step(p, m, p.(right := b'), m')
  {
    var s :| SafeShare(p, s, n, access, write);
    if !p.left.Done? {
      var a', m' := Progress(p.left, s.a, s.accessA, s.writeA, m);
      assert Step(p.left, m, a', m') && Step(p, m, p.(left := a'), m');
    }
    if !p.right.Done? {
      var b', m' := Progress(p.right, s.b, s.accessB, s.writeB, m);
      assert Step(p.right, m, b', m') && Step(p, m, p.(right := b'), m');
    }
  }

  /** What holds all along every interleaving. */
  lemma {:induction false} RunPreserves(t: seq<State>, n: nat, access: set<nat>, write: set<nat>)
    requires IsRun(t) && Safe(t[0].code, n, access, write) && Inside(access, t[0].memory)
    ensures |t| <= n + 1 && |t[|t| - 1].memory| == |t[0].memory|
    ensures Safe(t[|t| - 1].code, n + 1 - |t|, access, write)
    ensures Exec(t[|t| - 1].code, n + 1 - |t|, t[|t| - 1].memory) == Exec(t[0].code, n, t[0].memory)
    decreases |t|
  {
    if |t| > 1 {
      StepPreserves(t[0].code, n, access, write, t[0].memory, t[1].code, t[1].memory);
      RunPreserves(t[1..], n - 1, access, write);
    }
  }

  /**
    * Determinism: an interleaving takes at most n steps; while it is not done it can go on; and
    * when it is done it has left the memory that the sequential run leaves.
    */
  lemma Determinism(t: seq<State>, n: nat, access: set<nat>, write: set<nat>)
    requires IsRun(t) && Safe(t[0].code, n, access, write) && Inside(access, t[0].memory)
    ensures |t| <= n + 1
    ensures var last := t[|t| - 1];
      if last.code.Done? then last.memory == Exec(t[0].code, n, t[0].memory)
      else exists s: State :: IsRun(t + [s])
  {
    RunPreserves(t, n, access, write);
    var last := t[|t| - 1];
    if !last.code.Done? {
      var p', m' := Progress(last.code, n + 1 - |t|, access, write, last.memory);
      assert IsRun(t + [State(p', m')]);
    }
  }

  /** The accesses that p could make next, and those among them that write. */
  function Pending(p: Process): (r: (set<nat>, set<nat>)) {
    match p
    case Done => ({}, {})
    case Load(l, _) => ({l}, {})
    case Store(l, _, _) => ({l}, {l})
    case Cobegin(a, b, _) => (Pending(a).0 + Pending(b).0, Pending(a).1 + Pending(b).1)
  }

  /** No coroutine is about to write what one beside it is about to access. */
  ghost predicate RaceFree(p: Process) {
    p.Cobegin? ==>
      && Pending(p.left).1 !! Pending(p.right).0
      && Pending(p.right).1 !! Pending(p.left).0
      && RaceFree(p.left) && RaceFree(p.right)
  }

  /** What Pending means: a step depends on the memory at the pending accesses only, and changes it
      at the pending writes only. */
  lemma {:induction false} PendingStep(p: Process, m: seq<int>, p': Process, m': seq<int>, e: seq<int>)
    returns (e': seq<int>)
    requires Step(p, m, p', m') && AgreeOn(m, e, Pending(p).0)
    ensures Step(p, e, p', e') && AgreeOff(m', m, Pending(p).1) && AgreeOff(e', e, Pending(p).1)
    ensures AgreeOn(m', e', Pending(p).1) && Pending(p).1 <= Pending(p).0
    decreases p
  {
    PendingWithin(p);
    match p
    case Load(l, k) => e' := e;
    case Store(l, v, k) => e' := e[l := v];
    case Cobegin(a, b, k) =>
      if a.Done? && b.Done? && p' == k && m' == m {
        e' := e;
      } else if p'.Cobegin? && p'.right == b && p'.next == k && Step(a, m, p'.left, m') {
        e' := PendingStep(a, m, p'.left, m', e);
        AlsoAgree(m, m', e, e', Pending(a).1, Pending(p).1, Pending(p).0);
      } else {
        e' := PendingStep(b, m, p'.right, m', e);
        AlsoAgree(m, m', e, e', Pending(b).1, Pending(p).1, Pending(p).0);
      }
  }

  lemma {:induction false} PendingWithin(p: Process)
    ensures Pending(p).1 <= Pending(p).0
    decreases p
  {
    if p.Cobegin? {
      PendingWithin(p.left);
      PendingWithin(p.right);
    }
  }

  lemma AlsoAgree(m: seq<int>, m': seq<int>, e: seq<int>, e': seq<int>, xs: set<nat>, ys: set<nat>, around: set<nat>)
    requires xs <= ys <= around && AgreeOff(m', m, xs) && AgreeOff(e', e, xs) && AgreeOn(m', e', xs)
    requires AgreeOn(m, e, around)
    ensures AgreeOff(m', m, ys) && AgreeOff(e', e, ys) && AgreeOn(m', e', ys)
  {
  }

  ghost predicate StepChanges(p: Process, m: seq<int>, p': Process, m': seq<int>, l: nat) {
    Step(p, m, p', m') && l < |m| == |m'| && m'[l] != m[l]
  }

  /** The pending writes are exactly the addresses that some step can change. */
  lemma {:induction false} PendingWrite(p: Process, l: nat)
    ensures l in Pending(p).1 <==> exists m, p', m' :: StepChanges(p, m, p', m', l)
    decreases p
  {
    if l in Pending(p).1 {
      var m, p', m' := WriteStep(p, l);
      assert StepChanges(p, m, p', m', l);
    }
    if m, p', m' :| StepChanges(p, m, p', m', l) {
      var _ := PendingStep(p, m, p', m', m);
    }
  }

  lemma {:induction false} WriteStep(p: Process, l: nat) returns (m: seq<int>, p': Process, m': seq<int>)
    requires l in Pending(p).1
    ensures StepChanges(p, m, p', m', l)
    decreases p
  {
    match p
    case Store(_, v, k) =>
      m := seq(l + 1, _ => v + 1);
      p', m' := k, m[l := v];
    case Cobegin(a, b, k) =>
      if l in Pending(a).1 {
        m, p', m' := WriteStep(a, l);
        p' := Cobegin(p', b, k);
      } else {
        m, p', m' := WriteStep(b, l);
        p' := Cobegin(a, p', k);
      }
  }

  /** What freedom from races means: steps of two coroutines can be taken in either order, and both
      orders lead to the same state. */
  lemma Diamond(a: Process, b: Process, k: Process, m: seq<int>,
                a': Process, m1: seq<int>, b': Process, m2: seq<int>)
    returns (m3: seq<int>)
    requires RaceFree(Cobegin(a, b, k)) && Step(a, m, a', m1) && Step(b, m, b', m2)
    ensures Step(b, m1, b', m3) && Step(a, m2, a', m3)
  {
    PendingWithin(a);
    PendingWithin(b);
    var _ := PendingStep(a, m, a', m1, m);
    var _ := PendingStep(b, m, b', m2, m);
    m3 := PendingStep(b, m, b', m2, m1);
    var e := PendingStep(a, m, a', m1, m2);
    forall l | 0 <= l < |m|
      ensures m3[l] == e[l]
    {
      if l in Pending(a).1 {
        assert l !in Pending(b).1 && e[l] == m1[l] == m3[l];
      } else if l in Pending(b).1 {
        assert m3[l] == m2[l] == e[l];
      } else {
        assert m3[l] == m[l] == e[l];
      }
    }
    assert m3 == e;
  }

  /** Two writes to one cell: a race, and runs to the end of it that leave either value. */
  lemma RaceHasTwoEnds() returns (s: seq<State>, t: seq<State>)
    ensures var p := Cobegin(Store(0, 1, Done), Store(0, 2, Done), Done);
      && !RaceFree(p) && IsRun(s) && IsRun(t) && s[0] == t[0] == State(p, [0])
      && s[|s| - 1] == State(Done, [1]) && t[|t| - 1] == State(Done, [2])
  {
    var (x, y) := (Store(0, 1, Done), Store(0, 2, Done));
    var first, last := State(Cobegin(x, y, Done), [0]), Cobegin(Done, Done, Done);
    assert [0][0 := 1] == [1] == [2][0 := 1] && [0][0 := 2] == [2] == [1][0 := 2];
    s := [first, State(Cobegin(x, Done, Done), [2]), State(last, [1]), State(Done, [1])];
    t := [first, State(Cobegin(Done, y, Done), [1]), State(last, [2]), State(Done, [2])];
    assert Pending(first.code).1 == {0};
  }

  lemma {:induction false} SafeIsRaceFree(p: Process, n: nat, access: set<nat>, write: set<nat>)
    requires Safe(p, n, access, write)
    ensures RaceFree(p) && Pending(p).0 <= access && Pending(p).1 <= write
    decreases p
  {
    if p.Cobegin? {
      var s :| SafeShare(p, s, n, access, write);
      SafeIsRaceFree(p.left, s.a, s.accessA, s.writeA);
      SafeIsRaceFree(p.right, s.b, s.accessB, s.writeB);
    }
  }

  /** No interleaving reaches a race. */
  lemma NoRaces(t: seq<State>, n: nat, access: set<nat>, write: set<nat>)
    requires IsRun(t) && Safe(t[0].code, n, access, write) && Inside(access, t[0].memory)
    ensures forall i | 0 <= i < |t| :: RaceFree(t[i].code)
  {
    forall i | 0 <= i < |t|
      ensures RaceFree(t[i].code)
    {
      RunPreserves(t[..i + 1], n, access, write);
      SafeIsRaceFree(t[i].code, n - i, access, write);
    }
  }
}
