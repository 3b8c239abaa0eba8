/** One pass of the command loop in `Program.cs`, as a pure step on a
    session: the shared store together with the history stack.

    A selected command is executed and then pushed; undo pops the top
    command and runs its `undo`; an empty history or an invalid selector
    leaves everything as it was. The top of the stack is the last element
    of `history`. */
module Controller {
  import opened Int32
  import opened SharedStore
  import opened Commands
  import opened Selector

  datatype Session = Session(store: Store, history: seq<Cmd>)

  /** What the loop reports after a step. */
  datatype Reply = Executed(value: int32) | Undone(value: int32) | NothingToUndo | InvalidCommand

  /** One line read from the console, and the number the random generator
      would produce if this line starts a RandomAdd. */
  datatype Event = Event(line: ConsoleLine, draw: nat)

  /** The initial number is stored; the history starts empty. */
  function Start(initial: int32): (s: Session)
    ensures s.store.Get() == initial && |s.history| == 0
  {
    Session(Store(0).Set(initial), [])
  }

  /** The command object the loop uses for a selection. RandomAdd draws its
      amount from `Next(1, 10)` when it executes and keeps it. */
  function Instantiate(op: Op, draw: nat): (c: Cmd)
    ensures op == Increment <==> c == Inc
    ensures op == Decrement <==> c == Dec
    ensures op == Double <==> c == Dbl
    ensures op == RandomAdd <==> c == RandAdd(RandomAmount(draw))
  {
    match op
    case Increment => Inc
    case Decrement => Dec
    case Double => Dbl
    case RandomAdd => RandAdd(RandomAmount(draw))
  }

  /** Execute the command on the store, then push it on the history. */
  function ExecAndPush(s: Session, c: Cmd): (r: Session)
    ensures |r.history| == |s.history| + 1
    ensures r.history[..|s.history|] == s.history && r.history[|s.history|] == c
    ensures r.store == Exec(c, s.store)
  {
    Session(Exec(c, s.store), s.history + [c])
  }

  /** The undo branch: pop the top command and run its `undo`, or report
      that there is nothing to undo. */
  function PopAndUndo(s: Session): (r: (Session, Reply))
    ensures |s.history| == 0 ==> r == (s, NothingToUndo)
    ensures |s.history| > 0 ==>
      var top := s.history[|s.history| - 1];
      && r.0.history == s.history[..|s.history| - 1]
      && r.0.store == Undo(top, s.store)
      && r.1 == Undone(r.0.store.Get())
  {
    if |s.history| == 0 then (s, NothingToUndo)
    else
      var top := s.history[|s.history| - 1];
      var store := Undo(top, s.store);
      (Session(store, s.history[..|s.history| - 1]), Undone(store.Get()))
  }

  /** One iteration of the loop. */
  function Step(s: Session, ev: Event): (r: (Session, Reply))
    ensures Select(ev.line) == Invalid ==> r == (s, InvalidCommand)
    ensures Select(ev.line) == UndoLast ==> r == PopAndUndo(s)
    ensures Select(ev.line).Run? ==>
      var c := Instantiate(Select(ev.line).op, ev.draw);
      && |r.0.history| == |s.history| + 1
      && r.0.history[..|s.history|] == s.history
      && r.0.history[|s.history|] == c
      && r.0.store == Exec(c, s.store)
      && r.1 == Executed(r.0.store.Get())
  {
    match Select(ev.line)
    case Invalid => (s, InvalidCommand)
    case UndoLast => PopAndUndo(s)
    case Run(op) =>
      var next := ExecAndPush(s, Instantiate(op, ev.draw));
      (next, Executed(next.store.Get()))
  }

  /** Pushing a command and popping it again gives back the session,
      exactly when the command's `undo` reverses its `exec` on the current
      value. */
  lemma {:induction false} PushThenPop(s: Session, c: Cmd)
    ensures PopAndUndo(ExecAndPush(s, c)).0 == s <==> Reversible(c, s.store.Get())
    ensures Reversible(c, s.store.Get()) ==> PopAndUndo(ExecAndPush(s, c)).1 == Undone(s.store.Get())
  {
    UndoReversesExec(c, s.store);
    var r := PopAndUndo(ExecAndPush(s, c)).0;
    assert r.history == s.history;
  }

  /** A command step followed by an undo step restores the session, unless
      the command was a Double whose product overflowed. */
  lemma StepThenUndo(s: Session, ev: Event, undo: Event)
    ensures Select(ev.line).Run? && Select(undo.line) == UndoLast ==>
      var c := Instantiate(Select(ev.line).op, ev.draw);
      (Step(Step(s, ev).0, undo).0 == s <==> Reversible(c, s.store.Get()))
  {
    if Select(ev.line).Run? {
      PushThenPop(s, Instantiate(Select(ev.line).op, ev.draw));
    }
  }

  /** Runs the loop over a finite sequence of console lines. */
  function Steps(s: Session, evs: seq<Event>): (r: (Session, seq<Reply>))
    ensures |r.1| == |evs|
    decreases |evs|
  {
    if |evs| == 0 then (s, [])
    else
      var (next, reply) := Step(s, evs[0]);
      var (last, replies) := Steps(next, evs[1..]);
      (last, [reply] + replies)
  }

  function CountExecuted(rs: seq<Reply>): nat {
    if |rs| == 0 then 0 else (if rs[0].Executed? then 1 else 0) + CountExecuted(rs[1..])
  }

  function CountUndone(rs: seq<Reply>): nat {
    if |rs| == 0 then 0 else (if rs[0].Undone? then 1 else 0) + CountUndone(rs[1..])
  }

  /** The number of lines that select a command. */
  function CountCommands(evs: seq<Event>): nat {
    if |evs| == 0 then 0 else (if Select(evs[0].line).Run? then 1 else 0) + CountCommands(evs[1..])
  }

  /** After N executed commands and M successful undos the history has
      grown by N - M; N is the number of lines that selected a command. */
  lemma {:induction false} HistoryLength(s: Session, evs: seq<Event>)
    ensures var (last, replies) := Steps(s, evs);
      && CountExecuted(replies) == CountCommands(evs)
      && |last.history| == |s.history| + CountExecuted(replies) - CountUndone(replies)
    decreases |evs|
  {
    if |evs| > 0 {
      var (next, reply) := Step(s, evs[0]);
      HistoryLength(next, evs[1..]);
      var replies := Steps(s, evs).1;
      assert replies[1..] == Steps(next, evs[1..]).1;
    }
  }

  /** The store reached by executing `cmds` in order, starting at `initial`. */
  function Replay(initial: Store, cmds: seq<Cmd>): Store
    decreases |cmds|
  {
    if |cmds| == 0 then initial
    else Exec(cmds[|cmds| - 1], Replay(initial, cmds[..|cmds| - 1]))
  }

  /** No command in `cmds` was a Double that overflowed when it executed. */
  predicate Lossless(initial: Store, cmds: seq<Cmd>) {
    forall i :: 0 <= i < |cmds| ==> Reversible(cmds[i], Replay(initial, cmds[..i]).Get())
  }

  /** The session's store is what its history produces from `initial`, and
      every command on the history can be undone exactly. */
  predicate Faithful(initial: Store, s: Session) {
    s.store == Replay(initial, s.history) && Lossless(initial, s.history)
  }

  lemma FaithfulStart(initial: int32)
    ensures Faithful(Store(initial), Start(initial))
  {
  }

  lemma {:induction false} ExecAndPushFaithful(initial: Store, s: Session, c: Cmd)
    requires Faithful(initial, s) && Reversible(c, s.store.Get())
    ensures Faithful(initial, ExecAndPush(s, c))
  {
    var h := ExecAndPush(s, c).history;
    assert h[..|h| - 1] == s.history;
    forall i | 0 <= i < |h|
      ensures Reversible(h[i], Replay(initial, h[..i]).Get())
    {
      if i < |s.history| {
        assert h[..i] == s.history[..i];
      } else {
        assert h[..i] == s.history;
      }
    }
  }

  lemma {:induction false} PopAndUndoFaithful(initial: Store, s: Session)
    requires Faithful(initial, s)
    ensures Faithful(initial, PopAndUndo(s).0)
  {
    var h := s.history;
    if |h| > 0 {
      var p := h[..|h| - 1];
      var top := h[|h| - 1];
      assert Reversible(top, Replay(initial, p).Get());
      UndoReversesExec(top, Replay(initial, p));
      forall i | 0 <= i < |p|
        ensures Reversible(p[i], Replay(initial, p[..i]).Get())
      {
        assert p[..i] == h[..i];
      }
    }
  }

  /** A step keeps the session faithful, provided a Double it runs does
      not overflow. */
  predicate StepLossless(s: Session, ev: Event) {
    Select(ev.line).Run? ==> Reversible(Instantiate(Select(ev.line).op, ev.draw), s.store.Get())
  }

  lemma StepFaithful(initial: Store, s: Session, ev: Event)
    requires Faithful(initial, s) && StepLossless(s, ev)
    ensures Faithful(initial, Step(s, ev).0)
  {
    match Select(ev.line)
    case Invalid =>
    case UndoLast => PopAndUndoFaithful(initial, s);
    case Run(op) => ExecAndPushFaithful(initial, s, Instantiate(op, ev.draw));
  }

  /** No Double executed during the run overflowed. */
  predicate RunLossless(s: Session, evs: seq<Event>)
    decreases |evs|
  {
    |evs| == 0 || (StepLossless(s, evs[0]) && RunLossless(Step(s, evs[0]).0, evs[1..]))
  }

  lemma {:induction false} StepsFaithful(initial: Store, s: Session, evs: seq<Event>)
    requires Faithful(initial, s) && RunLossless(s, evs)
    ensures Faithful(initial, Steps(s, evs).0)
    decreases |evs|
  {
    if |evs| > 0 {
      StepFaithful(initial, s, evs[0]);
      StepsFaithful(initial, Step(s, evs[0]).0, evs[1..]);
    }
  }

  /** Entering undo until the loop answers that there is nothing to undo. */
  function UndoAll(s: Session): (r: Session)
    ensures |r.history| == 0
    decreases |s.history|
  {
    if |s.history| == 0 then s else UndoAll(PopAndUndo(s).0)
  }

  lemma {:induction false} UndoAllFaithful(initial: Store, s: Session)
    requires Faithful(initial, s)
    ensures UndoAll(s).store == initial
    decreases |s.history|
  {
    if |s.history| > 0 {
      PopAndUndoFaithful(initial, s);
      UndoAllFaithful(initial, PopAndUndo(s).0);
    }
  }

  /** Undoing until the history is empty brings the number back to its
      initial setting, after any run in which no Double overflowed. */
  lemma UndoAllRestoresInitial(initial: int32, evs: seq<Event>)
    requires RunLossless(Start(initial), evs)
    ensures UndoAll(Steps(Start(initial), evs).0).store.Get() == initial
  {
    FaithfulStart(initial);
    StepsFaithful(Store(initial), Start(initial), evs);
    UndoAllFaithful(Store(initial), Steps(Start(initial), evs).0);
  }

  /** Running a line and then the rest is running the line, then the rest
      from where it left off. */
  lemma StepsCons(s: Session, ev: Event, evs: seq<Event>)
    ensures Steps(s, [ev] + evs).0 == Steps(Step(s, ev).0, evs).0
    ensures Steps(s, [ev] + evs).1 == [Step(s, ev).1] + Steps(Step(s, ev).0, evs).1
  {
    assert ([ev] + evs)[1..] == evs;
  }

  /** The line "1" selects Increment. */
  lemma OneSelectsIncrement()
    ensures Select(Line("1")) == Run(Increment)
  {
    NormalizeUnpadded("1");
    assert ToLower("1") == "1";
  }

  /** The line "3" selects Double. */
  lemma ThreeSelectsDouble()
    ensures Select(Line("3")) == Run(Double)
  {
    NormalizeUnpadded("3");
    assert ToLower("3") == "3";
  }

  /** A line reading "1" executes Increment and pushes it. */
  lemma IncrementLineStep(s: Session, draw: nat)
    ensures Step(s, Event(Line("1"), draw)) == (ExecAndPush(s, Inc), Executed(Exec(Inc, s.store).Get()))
  {
    OneSelectsIncrement();
  }

  /** A line reading "3" executes Double and pushes it. */
  lemma DoubleLineStep(s: Session, draw: nat)
    ensures Step(s, Event(Line("3"), draw)) == (ExecAndPush(s, Dbl), Executed(Exec(Dbl, s.store).Get()))
  {
    ThreeSelectsDouble();
  }

  /** A line reading "5" is the undo branch, whatever the draw. */
  lemma UndoLineStep(s: Session, draw: nat)
    ensures Step(s, Event(Line("5"), draw)) == PopAndUndo(s)
  {
    NormalizeUnpadded("5");
    assert ToLower("5") == "5";
    assert Select(Line("5")) == UndoLast;
  }

  /** `n` console lines that each read "5". */
  function UndoLines(n: nat, draw: nat): (evs: seq<Event>)
    ensures |evs| == n
    ensures forall i :: 0 <= i < n ==> evs[i] == Event(Line("5"), draw)
  {
    if n == 0 then [] else [Event(Line("5"), draw)] + UndoLines(n - 1, draw)
  }

  /** Typing "5" once per history entry does what `UndoAll` does, and every
      one of those lines reports an undone command. */
  lemma UndoLinesUndoAll(s: Session, draw: nat)
    ensures Steps(s, UndoLines(|s.history|, draw)).0 == UndoAll(s)
    ensures forall i :: 0 <= i < |s.history| ==> Steps(s, UndoLines(|s.history|, draw)).1[i].Undone?
  {
    UndoLinesEmpty(s, draw);
    UndoLinesReplies(s, draw);
  }

  /** The first of `n` undo lines pops the top of the history. */
  lemma UndoLinesFirst(s: Session, n: nat, draw: nat)
    requires n > 0
    ensures Steps(s, UndoLines(n, draw)).0 == Steps(PopAndUndo(s).0, UndoLines(n - 1, draw)).0
    ensures Steps(s, UndoLines(n, draw)).1
         == [PopAndUndo(s).1] + Steps(PopAndUndo(s).0, UndoLines(n - 1, draw)).1
  {
    var undo := Event(Line("5"), draw);
    assert UndoLines(n, draw) == [undo] + UndoLines(n - 1, draw);
    UndoLineStep(s, draw);
    StepsCons(s, undo, UndoLines(n - 1, draw));
  }

  lemma {:induction false} UndoLinesEmpty(s: Session, draw: nat)
    ensures Steps(s, UndoLines(|s.history|, draw)).0 == UndoAll(s)
    decreases |s.history|
  {
    var n := |s.history|;
    if n > 0 {
      var next := PopAndUndo(s).0;
      assert |next.history| == n - 1;
      UndoLinesFirst(s, n, draw);
      UndoLinesEmpty(next, draw);
      assert UndoAll(s) == UndoAll(next);
    }
  }

  lemma {:induction false} UndoLinesReplies(s: Session, draw: nat)
    ensures forall i :: 0 <= i < |s.history| ==> Steps(s, UndoLines(|s.history|, draw)).1[i].Undone?
    decreases |s.history|
  {
    var n := |s.history|;
    if n > 0 {
      var next := PopAndUndo(s).0;
      UndoLinesFirst(s, n, draw);
      UndoLinesReplies(next, draw);
      var replies := Steps(s, UndoLines(n, draw)).1;
      var later := Steps(next, UndoLines(n - 1, draw)).1;
      forall i | 0 <= i < n
        ensures replies[i].Undone?
      {
        if i > 0 {
          assert replies[i] == later[i - 1];
        }
      }
    }
  }

  /** Start at 5, increment to 6, double to 12, then undo three times:
      12 goes back to 6, then to 5, and the third undo finds nothing. */
  lemma ScenarioIncrementDoubleUndo(draw: nat)
    ensures Step(Start(5), Event(Line("1"), draw)) == (Session(Store(6), [Inc]), Executed(6))
    ensures Step(Session(Store(6), [Inc]), Event(Line("3"), draw))
         == (Session(Store(12), [Inc, Dbl]), Executed(12))
    ensures Step(Session(Store(12), [Inc, Dbl]), Event(Line("5"), draw))
         == (Session(Store(6), [Inc]), Undone(6))
    ensures Step(Session(Store(6), [Inc]), Event(Line("5"), draw))
         == (Session(Store(5), []), Undone(5))
    ensures Step(Session(Store(5), []), Event(Line("5"), draw))
         == (Session(Store(5), []), NothingToUndo)
  {
    IncrementLineStep(Start(5), draw);
    assert Exec(Inc, Store(5)) == Store(6);
    DoubleLineStep(Session(Store(6), [Inc]), draw);
    assert [Inc] + [Dbl] == [Inc, Dbl];
    assert Exec(Dbl, Store(6)) == Store(12);
    UndoLineStep(Session(Store(12), [Inc, Dbl]), draw);
    assert [Inc, Dbl][..1] == [Inc];
    assert Undo(Dbl, Store(12)) == Store(6);
    UndoLineStep(Session(Store(6), [Inc]), draw);
    assert Undo(Inc, Store(6)) == Store(5);
    UndoLineStep(Session(Store(5), []), draw);
  }

  /** Without the no-overflow proviso the restore fails: doubling 2^30
      stores -2^31, and halving that gives -2^30. */
  lemma ScenarioOverflowedDouble(draw: nat)
    ensures var evs := [Event(Line("3"), draw), Event(Line("5"), draw)];
      && Steps(Start(0x4000_0000), evs).1 == [Executed(-0x8000_0000), Undone(-0x4000_0000)]
      && UndoAll(Steps(Start(0x4000_0000), evs).0).store.Get() != 0x4000_0000
  {
    var dbl, undo := Event(Line("3"), draw), Event(Line("5"), draw);
    var s0 := Start(0x4000_0000);
    DoubleOverflowLosesSign(s0.store);
    DoubleLineStep(s0, draw);
    var s1 := Session(Store(-0x8000_0000), [Dbl]);
    assert Step(s0, dbl) == (s1, Executed(-0x8000_0000));
    UndoLineStep(s1, draw);
    var s2 := Session(Store(-0x4000_0000), []);
    assert Step(s1, undo) == (s2, Undone(-0x4000_0000));
    StepsCons(s1, undo, []);
    StepsCons(s0, dbl, [undo]);
    assert [undo] + [] == [undo];
    assert [dbl] + [undo] == [dbl, undo];
  }
}
