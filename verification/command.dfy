/**
 * The undo/redo invoker of the command pattern: a remote control holding a
 * current command, a history stack of executed commands and a redo stack of
 * undone ones.  Every operation is a pure transition that returns the new
 * remote together with the receiver effects it caused, in order.
 */
module CommandInvoker {
  import opened Wrappers

  /** What a receiver does when a command acts on it (the light's messages). */
  datatype Effect = TurnedOn(light: nat) | TurnedOff(light: nat)

  /**
   * A concrete command bound to a light.  `id` stands for the identity of the
   * command object: two commands on the same light are still distinct.
   */
  datatype Command = LightOn(id: nat, light: nat)

  /** The receiver effects of executing a command. */
  function Execute(c: Command): (e: seq<Effect>)
    ensures |e| == 1 && e[0].TurnedOn? && e[0].light == c.light
  {
    match c
    case LightOn(_, light) => [TurnedOn(light)]
  }

  /** The receiver effects of undoing a command: the inverse of `Execute`. */
  function Undo(c: Command): (e: seq<Effect>)
    ensures |e| == 1 && e[0].TurnedOff? && e[0].light == c.light
  {
    match c
    case LightOn(_, light) => [TurnedOff(light)]
  }

  /** The invoker state.  Both stacks are oldest-first, their top at the tail. */
  datatype Remote = Remote(command: Option<Command>, history: seq<Command>, redo: seq<Command>)

  /** A transition's result: the new remote and the effects it emitted. */
  datatype Step = Step(remote: Remote, effects: seq<Effect>)

  /** A freshly built remote: no command, both stacks empty. */
  function Init(): (r: Remote)
    ensures r.command.None? && |r.history| == 0 && |r.redo| == 0
  {
    Remote(None, [], [])
  }

  /** `set_command`: replaces the current command and touches nothing else. */
  function SetCommand(r: Remote, c: Option<Command>): (r': Remote)
    ensures r'.command == c
    ensures r'.history == r.history && r'.redo == r.redo
  {
    r.(command := c)
  }

  /**
   * `press_button`: with a command set, executes it, pushes it on the
   * history and clears the redo stack; with none set, does nothing.
   */
  function PressButton(r: Remote): (s: Step)
    ensures s.remote.command == r.command
    ensures r.command.None? ==> s.remote == r && s.effects == []
    ensures r.command.Some? ==>
              && s.remote.history == r.history + [r.command.value]
              && s.remote.redo == []
              && s.effects == Execute(r.command.value)
    ensures r.command.Some? ==> |s.remote.history| + |s.remote.redo| == |r.history| + 1
  {
    match r.command
    case None => Step(r, [])
    case Some(c) => Step(Remote(r.command, r.history + [c], []), Execute(c))
  }

  /**
   * `press_undo`: with a non-empty history, pops its top command, undoes it
   * and pushes it on the redo stack; with an empty history, does nothing.
   */
  function PressUndo(r: Remote): (s: Step)
    ensures s.remote.command == r.command
    ensures |r.history| == 0 ==> s.remote == r && s.effects == []
    ensures |r.history| > 0 ==>
              var c := r.history[|r.history| - 1];
              && s.remote.history == r.history[..|r.history| - 1]
              && s.remote.redo == r.redo + [c]
              && s.effects == Undo(c)
    ensures |s.remote.history| + |s.remote.redo| == |r.history| + |r.redo|
  {
    if |r.history| == 0 then Step(r, [])
    else
      var c := r.history[|r.history| - 1];
      Step(Remote(r.command, r.history[..|r.history| - 1], r.redo + [c]), Undo(c))
  }

  /**
   * `press_redo`: with a non-empty redo stack, pops its top command,
   * executes it again and pushes it back on the history; otherwise does
   * nothing.
   */
  function PressRedo(r: Remote): (s: Step)
    ensures s.remote.command == r.command
    ensures |r.redo| == 0 ==> s.remote == r && s.effects == []
    ensures |r.redo| > 0 ==>
              var c := r.redo[|r.redo| - 1];
              && s.remote.redo == r.redo[..|r.redo| - 1]
              && s.remote.history == r.history + [c]
              && s.effects == Execute(c)
    ensures |s.remote.history| + |s.remote.redo| == |r.history| + |r.redo|
  {
    if |r.redo| == 0 then Step(r, [])
    else
      var c := r.redo[|r.redo| - 1];
      Step(Remote(r.command, r.history + [c], r.redo[..|r.redo| - 1]), Execute(c))
  }

  /** One call a client makes on the remote. */
  datatype Op = Set(cmd: Option<Command>) | Button | UndoOp | RedoOp

  function Apply(r: Remote, op: Op): Step
  {
    match op
    case Set(c) => Step(SetCommand(r, c), [])
    case Button => PressButton(r)
    case UndoOp => PressUndo(r)
    case RedoOp => PressRedo(r)
  }

  /** Runs a sequence of calls, concatenating their effects in call order. */
  function Run(r: Remote, ops: seq<Op>): Step
    decreases |ops|
  {
    if |ops| == 0 then Step(r, [])
    else
      var first := Apply(r, ops[0]);
      var rest := Run(first.remote, ops[1..]);
      Step(rest.remote, first.effects + rest.effects)
  }

  function Reverse<T>(s: seq<T>): (r: seq<T>)
    ensures |r| == |s|
    ensures forall i :: 0 <= i < |s| ==> r[i] == s[|s| - 1 - i]
  {
    if |s| == 0 then [] else Reverse(s[1..]) + [s[0]]
  }

  /**
   * The linear timeline the two stacks represent: the applied commands in
   * order, followed by the undone ones from the next to redo onwards.
   */
  function Timeline(r: Remote): seq<Command>
  {
    r.history + Reverse(r.redo)
  }

  /** Undo followed by redo, from a non-empty history, restores both stacks. */
  lemma UndoThenRedo(r: Remote)
    requires |r.history| > 0
    ensures PressRedo(PressUndo(r).remote).remote == r
    ensures var c := r.history[|r.history| - 1];
            PressUndo(r).effects + PressRedo(PressUndo(r).remote).effects == Undo(c) + Execute(c)
  {
    var u := PressUndo(r).remote;
    assert u.history + [r.history[|r.history| - 1]] == r.history;
    assert (u.redo)[..|u.redo| - 1] == r.redo;
  }

  /** Redo followed by undo, from a non-empty redo stack, restores both stacks. */
  lemma RedoThenUndo(r: Remote)
    requires |r.redo| > 0
    ensures PressUndo(PressRedo(r).remote).remote == r
  {
    var u := PressRedo(r).remote;
    assert u.redo + [r.redo[|r.redo| - 1]] == r.redo;
    assert (u.history)[..|u.history| - 1] == r.history;
  }

  lemma {:induction false} ReverseAppend<T>(s: seq<T>, x: T)
    ensures Reverse(s + [x]) == [x] + Reverse(s)
  {
    assert |Reverse(s + [x])| == |[x] + Reverse(s)|;
    forall i | 0 <= i < |s| + 1
      ensures Reverse(s + [x])[i] == ([x] + Reverse(s))[i]
    {
    }
  }

  /** Undo and redo only move the cursor along the timeline; they never edit it. */
  lemma UndoRedoKeepTimeline(r: Remote)
    ensures Timeline(PressUndo(r).remote) == Timeline(r)
    ensures Timeline(PressRedo(r).remote) == Timeline(r)
  {
    if |r.history| > 0 {
      var h := r.history;
      var c := h[|h| - 1];
      ReverseAppend(r.redo, c);
      assert h[..|h| - 1] + [c] == h;
      assert h[..|h| - 1] + ([c] + Reverse(r.redo)) == (h[..|h| - 1] + [c]) + Reverse(r.redo);
    }
    if |r.redo| > 0 {
      var d := r.redo;
      var c := d[|d| - 1];
      ReverseAppend(d[..|d| - 1], c);
      assert d[..|d| - 1] + [c] == d;
      assert (r.history + [c]) + Reverse(d[..|d| - 1]) == r.history + ([c] + Reverse(d[..|d| - 1]));
    }
  }

  /** A pressed button cuts the timeline at the cursor and appends the command. */
  lemma ButtonTruncatesTimeline(r: Remote)
    requires r.command.Some?
    ensures Timeline(PressButton(r).remote) == r.history + [r.command.value]
  {
  }

  predicate Navigation(op: Op)
  {
    op.UndoOp? || op.RedoOp?
  }

  /**
   * Any run of undo and redo presses keeps the timeline, the current command
   * and the combined size of the two stacks.
   */
  lemma {:induction false} NavigationKeepsTimeline(r: Remote, ops: seq<Op>)
    requires forall i :: 0 <= i < |ops| ==> Navigation(ops[i])
    ensures Timeline(Run(r, ops).remote) == Timeline(r)
    ensures Run(r, ops).remote.command == r.command
    ensures |Run(r, ops).remote.history| + |Run(r, ops).remote.redo| == |r.history| + |r.redo|
    decreases |ops|
  {
    if |ops| > 0 {
      var next := Apply(r, ops[0]).remote;
      UndoRedoKeepTimeline(r);
      NavigationKeepsTimeline(next, ops[1..]);
    }
  }

  function Repeat<T>(x: T, n: nat): (s: seq<T>)
    ensures |s| == n
    ensures forall i :: 0 <= i < n ==> s[i] == x
  {
    if n == 0 then [] else Repeat(x, n - 1) + [x]
  }

  /**
   * n button presses with command c set push c n times (the same command
   * object can sit in the history several times), leave the redo stack
   * empty, and execute c n times.
   */
  lemma {:induction false} PressButtonRepeatedly(r: Remote, c: Command, n: nat)
    requires r.command == Some(c)
    ensures var s := Run(r, Repeat(Button, n));
            && s.remote.history == r.history + Repeat(c, n)
            && (n > 0 ==> s.remote.redo == [])
            && (n == 0 ==> s.remote == r)
            && s.effects == Repeat(Execute(c)[0], n)
    decreases n
  {
    if n > 0 {
      var ops := Repeat(Button, n);
      var first := PressButton(r).remote;
      assert ops[1..] == Repeat(Button, n - 1);
      PressButtonRepeatedly(first, c, n - 1);
      assert r.history + [c] + Repeat(c, n - 1) == r.history + Repeat(c, n);
      assert Execute(c) + Repeat(Execute(c)[0], n - 1) == Repeat(Execute(c)[0], n);
    }
  }

  /** From a fresh remote, n presses leave exactly n history entries and no redo. */
  lemma FreshPresses(c: Command, n: nat)
    ensures var s := Run(SetCommand(Init(), Some(c)), Repeat(Button, n));
            |s.remote.history| == n && s.remote.redo == []
  {
    PressButtonRepeatedly(SetCommand(Init(), Some(c)), c, n);
  }

  /** A submit of each command in turn: set it as the current command, press the button. */
  function Submits(cs: seq<Command>): (ops: seq<Op>)
    ensures |ops| == 2 * |cs|
  {
    if |cs| == 0 then [] else [Set(Some(cs[0])), Button] + Submits(cs[1..])
  }

  /** The effects of executing each command in turn. */
  function ExecuteAll(cs: seq<Command>): seq<Effect>
  {
    if |cs| == 0 then [] else Execute(cs[0]) + ExecuteAll(cs[1..])
  }

  /**
   * Submitting commands one after another, with no undo in between, appends
   * exactly those commands to the history in submission order, leaves the
   * redo stack empty once anything was submitted, and executes each once.
   */
  lemma {:induction false} SubmitsAppend(r: Remote, cs: seq<Command>)
    ensures Run(r, Submits(cs)).remote.history == r.history + cs
    ensures |cs| > 0 ==> Run(r, Submits(cs)).remote.redo == []
    ensures Run(r, Submits(cs)).effects == ExecuteAll(cs)
    decreases |cs|
  {
    if |cs| == 0 {
      assert r.history + cs == r.history;
    } else {
      var ops := Submits(cs);
      var r1 := SetCommand(r, Some(cs[0]));
      var s2 := PressButton(r1);
      assert ops[1..][1..] == Submits(cs[1..]);
      SubmitsAppend(s2.remote, cs[1..]);
      var rest := Run(s2.remote, Submits(cs[1..]));
      assert Run(r1, ops[1..]) == Step(rest.remote, s2.effects + rest.effects);
      assert Run(r, ops) == Step(rest.remote, [] + (s2.effects + rest.effects));
      assert r.history + [cs[0]] + cs[1..] == r.history + cs;
    }
  }

  /** Pressing the button twice puts the same command twice in the history. */
  lemma SameCommandTwice(c: Command)
    ensures Run(Init(), [Set(Some(c)), Button, Button]).remote.history == [c, c]
  {
    var ops := [Set(Some(c)), Button, Button];
    var r1 := SetCommand(Init(), Some(c));
    var r2 := PressButton(r1).remote;
    var r3 := PressButton(r2).remote;
    assert ops[1..][1..][1..] == [];
    assert Run(r3, []).remote == r3;
    assert Run(r2, ops[1..][1..]).remote == r3;
    assert Run(r1, ops[1..]).remote == r3;
  }

  /**
   * A new press after an undo discards the undone branch for good:
   * A; B; undo; C leaves history [A, C] and an empty redo stack.
   */
  lemma PressAfterUndoDiscardsRedo(a: Command, b: Command, c: Command)
    ensures var s := Run(Init(), [Set(Some(a)), Button, Set(Some(b)), Button, UndoOp, Set(Some(c)), Button]);
            s.remote.history == [a, c] && s.remote.redo == []
  {
    var ops := [Set(Some(a)), Button, Set(Some(b)), Button, UndoOp, Set(Some(c)), Button];
    var r1 := SetCommand(Init(), Some(a));
    var r2 := PressButton(r1).remote;
    var r3 := SetCommand(r2, Some(b));
    var r4 := PressButton(r3).remote;
    var r5 := PressUndo(r4).remote;
    var r6 := SetCommand(r5, Some(c));
    var r7 := PressButton(r6).remote;
    assert r7.history == [a, c] && r7.redo == [];
    assert Run(r6, ops[6..]).remote == r7 by { assert ops[6..][1..] == ops[7..]; }
    assert Run(r5, ops[5..]).remote == r7 by { assert ops[5..][1..] == ops[6..]; }
    assert Run(r4, ops[4..]).remote == r7 by { assert ops[4..][1..] == ops[5..]; }
    assert Run(r3, ops[3..]).remote == r7 by { assert ops[3..][1..] == ops[4..]; }
    assert Run(r2, ops[2..]).remote == r7 by { assert ops[2..][1..] == ops[3..]; }
    assert Run(r1, ops[1..]).remote == r7 by { assert ops[1..][1..] == ops[2..]; }
  }

  /** The client at the bottom of command.py: press, undo, redo. */
  lemma ClientScenario(light: nat)
    ensures var lightOn := LightOn(0, light);
            var s := Run(Init(), [Set(Some(lightOn)), Button, UndoOp, RedoOp]);
            && s.effects == [TurnedOn(light), TurnedOff(light), TurnedOn(light)]
            && s.remote.history == [lightOn]
            && s.remote.redo == []
  {
    var lightOn := LightOn(0, light);
    var ops := [Set(Some(lightOn)), Button, UndoOp, RedoOp];
    var r1 := SetCommand(Init(), Some(lightOn));
    var s2 := PressButton(r1);
    var s3 := PressUndo(s2.remote);
    var s4 := PressRedo(s3.remote);
    assert s4.remote.history == [lightOn] && s4.remote.redo == [];
    assert Run(s3.remote, ops[3..]) == Step(s4.remote, s4.effects) by { assert ops[3..][1..] == []; }
    assert Run(s2.remote, ops[2..]) == Step(s4.remote, s3.effects + s4.effects) by { assert ops[2..][1..] == ops[3..]; }
    assert Run(r1, ops[1..]) == Step(s4.remote, s2.effects + (s3.effects + s4.effects)) by { assert ops[1..][1..] == ops[2..]; }
  }
}
