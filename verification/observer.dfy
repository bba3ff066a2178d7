/**
 * The observer registry: a subject keeps its observers in attachment order,
 * without duplicates, and notifies every one of them, in that order, each
 * time its state is set.
 */
module ObserverRegistry {
  import opened Wrappers

  /**
   * Which `update` an observer runs: the base class's, which does nothing,
   * or one of the two concrete observers that split states at 3.
   */
  datatype Kind = Base | ConcreteA | ConcreteB

  /** An observer object; `id` stands for its identity, which `==` compares. */
  datatype Observer = Observer(id: nat, kind: Kind)

  /** The subject: its observer list and its state (None until first set). */
  datatype Subject = Subject(observers: seq<Observer>, state: Option<int>)

  /** One `update` call during a notification, and whether the observer reacted. */
  datatype Notice = Notice(observer: Observer, state: int, reacted: bool)

  predicate NoDuplicates<T(==)>(xs: seq<T>)
  {
    forall i, j :: 0 <= i < j < |xs| ==> xs[i] != xs[j]
  }

  /** A fresh subject: no observers, no state. */
  function Init(): (s: Subject)
    ensures |s.observers| == 0 && s.state.None?
  {
    Subject([], None)
  }

  /** `attach`: appends the observer unless it is already attached. */
  function Attach(s: Subject, o: Observer): (r: Subject)
    ensures r.state == s.state
    ensures o in r.observers
    ensures o in s.observers ==> r == s
    ensures o !in s.observers ==> r.observers == s.observers + [o]
    ensures NoDuplicates(s.observers) ==> NoDuplicates(r.observers)
  {
    if o in s.observers then s else s.(observers := s.observers + [o])
  }

  /** The position of the first occurrence of `x`. */
  function IndexOf<T(==)>(xs: seq<T>, x: T): (i: nat)
    requires x in xs
    ensures i < |xs| && xs[i] == x && x !in xs[..i]
  {
    if xs[0] == x then 0
    else
      assert x in xs[1..];
      var j := IndexOf(xs[1..], x);
      assert xs[..j + 1] == [xs[0]] + xs[1..][..j];
      j + 1
  }

  /** Python's `list.remove` on a list that may lack the element: the first occurrence goes. */
  function RemoveFirst<T(==)>(xs: seq<T>, x: T): (r: seq<T>)
    ensures x !in xs ==> r == xs
    ensures x in xs ==> r == xs[..IndexOf(xs, x)] + xs[IndexOf(xs, x) + 1..]
  {
    if |xs| == 0 then []
    else if xs[0] == x then xs[1..]
    else
      var rest := RemoveFirst(xs[1..], x);
      assert x in xs ==> x in xs[1..];
      assert x in xs ==> IndexOf(xs, x) == IndexOf(xs[1..], x) + 1;
      [xs[0]] + rest
  }

  /**
   * `detach`: removes the observer; when it is not attached, the ValueError
   * is swallowed and nothing changes.
   */
  function Detach(s: Subject, o: Observer): (r: Subject)
    ensures r.state == s.state
    ensures o !in s.observers ==> r == s
    ensures o in s.observers ==>
              && |r.observers| == |s.observers| - 1
              && r.observers == s.observers[..IndexOf(s.observers, o)] + s.observers[IndexOf(s.observers, o) + 1..]
    ensures NoDuplicates(s.observers) ==> o !in r.observers && NoDuplicates(r.observers)
  {
    var r := s.(observers := RemoveFirst(s.observers, o));
    assert NoDuplicates(s.observers) ==> o !in r.observers && NoDuplicates(r.observers) by {
      if NoDuplicates(s.observers) && o in s.observers {
        RemoveKeepsOthers(s.observers, IndexOf(s.observers, o));
      }
    }
    r
  }

  /** Deleting position `i` of a duplicate-free list removes exactly that element. */
  lemma RemoveKeepsOthers<T>(xs: seq<T>, i: nat)
    requires NoDuplicates(xs) && i < |xs|
    ensures var r := xs[..i] + xs[i + 1..];
            xs[i] !in r && NoDuplicates(r)
  {
    var r := xs[..i] + xs[i + 1..];
    forall k | 0 <= k < |r|
      ensures r[k] == xs[if k < i then k else k + 1]
    {
    }
  }

  /** Whether an observer of this kind reacts to the state. */
  predicate Reacts(kind: Kind, state: int)
    ensures kind.Base? ==> !Reacts(kind, state)
    ensures kind.ConcreteA? ==> (Reacts(kind, state) <==> state < 3)
    ensures kind.ConcreteB? ==> (Reacts(kind, state) <==> state >= 3)
  {
    match kind
    case Base => false
    case ConcreteA => state < 3
    case ConcreteB => state >= 3
  }

  /**
   * `notify`: calls `update` on every observer in list order, each seeing
   * the stored state.
   */
  function Notify(observers: seq<Observer>, state: int): (n: seq<Notice>)
    ensures |n| == |observers|
    ensures forall i :: 0 <= i < |n| ==>
              && n[i].observer == observers[i]
              && n[i].state == state
              && n[i].reacted == Reacts(observers[i].kind, state)
  {
    if |observers| == 0 then []
    else [Notice(observers[0], state, Reacts(observers[0].kind, state))] + Notify(observers[1..], state)
  }

  /** The `state` setter: stores the value, then notifies with it. */
  function SetState(s: Subject, value: int): (r: (Subject, seq<Notice>))
    ensures r.0.state == Some(value) && r.0.observers == s.observers
    ensures |r.1| == |s.observers|
    ensures forall i :: 0 <= i < |r.1| ==>
              && r.1[i].observer == s.observers[i]
              && r.1[i].state == value
              && r.1[i].reacted == Reacts(s.observers[i].kind, value)
  {
    var stored := s.(state := Some(value));
    (stored, Notify(stored.observers, stored.state.value))
  }

  /** The observers that reacted, in notification order. */
  function Reactions(notices: seq<Notice>): seq<Observer>
  {
    if |notices| == 0 then []
    else (if notices[0].reacted then [notices[0].observer] else []) + Reactions(notices[1..])
  }

  /** For every state exactly one of the two concrete observers reacts; the base never does. */
  lemma ExactlyOneConcreteReacts(state: int)
    ensures Reacts(ConcreteA, state) <==> !Reacts(ConcreteB, state)
    ensures !Reacts(Base, state)
  {
  }

  /** Attaching twice is attaching once. */
  lemma AttachIdempotent(s: Subject, o: Observer)
    ensures Attach(Attach(s, o), o) == Attach(s, o)
  {
  }

  /** Detaching a freshly attached observer gives the subject back. */
  lemma DetachUndoesAttach(s: Subject, o: Observer)
    requires o !in s.observers
    ensures Detach(Attach(s, o), o) == s
  {
    var xs := s.observers + [o];
    assert IndexOf(xs, o) == |s.observers|;
    assert xs[..|s.observers|] == s.observers;
  }

  /** Under the no-duplicates invariant, a second detach changes nothing. */
  lemma DetachIdempotent(s: Subject, o: Observer)
    requires NoDuplicates(s.observers)
    ensures Detach(Detach(s, o), o) == Detach(s, o)
  {
  }

  /** Detaching one observer neither adds nor drops any other observer. */
  lemma DetachKeepsOthers(s: Subject, o: Observer, other: Observer)
    requires other != o
    ensures other in Detach(s, o).observers <==> other in s.observers
  {
    if o in s.observers {
      var i := IndexOf(s.observers, o);
      assert s.observers == s.observers[..i] + [o] + s.observers[i + 1..];
    }
  }

  /** `o` receives exactly one of the notices. */
  predicate NotifiedExactlyOnce(n: seq<Notice>, o: Observer)
  {
    exists i :: 0 <= i < |n| && n[i].observer == o && forall j :: 0 <= j < |n| && n[j].observer == o ==> j == i
  }

  /** Without duplicates every attached observer is notified exactly once. */
  lemma NotifiedOnce(observers: seq<Observer>, state: int, o: Observer)
    requires NoDuplicates(observers) && o in observers
    ensures NotifiedExactlyOnce(Notify(observers, state), o)
  {
    var i := IndexOf(observers, o);
    var n := Notify(observers, state);
    forall j | 0 <= j < |n| && n[j].observer == o
      ensures j == i
    {
      assert observers[j] == observers[i];
    }
    assert 0 <= i < |n| && n[i].observer == o;
  }

  /** The calls a client makes on a subject. */
  datatype Call = AttachCall(o: Observer) | DetachCall(o: Observer) | SetCall(value: int)

  function Apply(s: Subject, c: Call): (Subject, seq<Notice>)
  {
    match c
    case AttachCall(o) => (Attach(s, o), [])
    case DetachCall(o) => (Detach(s, o), [])
    case SetCall(v) => SetState(s, v)
  }

  /** Runs a sequence of calls, concatenating the notices they produce. */
  function Run(s: Subject, calls: seq<Call>): (Subject, seq<Notice>)
    decreases |calls|
  {
    if |calls| == 0 then (s, [])
    else
      var first := Apply(s, calls[0]);
      var rest := Run(first.0, calls[1..]);
      (rest.0, first.1 + rest.1)
  }

  /** No sequence of calls ever puts an observer in the list twice. */
  lemma {:induction false} RunKeepsNoDuplicates(s: Subject, calls: seq<Call>)
    requires NoDuplicates(s.observers)
    ensures NoDuplicates(Run(s, calls).0.observers)
    decreases |calls|
  {
    if |calls| > 0 {
      RunKeepsNoDuplicates(Apply(s, calls[0]).0, calls[1..]);
    }
  }

  /**
   * The module-level demo: attach A then B, set the state to 2 (only A
   * reacts), then to 3 (only B reacts).
   */
  lemma Demo(a: Observer, b: Observer)
    requires a.kind == ConcreteA && b.kind == ConcreteB
    ensures var s := Attach(Attach(Init(), a), b);
            && s.observers == [a, b]
            && Reactions(SetState(s, 2).1) == [a]
            && Reactions(SetState(SetState(s, 2).0, 3).1) == [b]
  {
    var s := Attach(Attach(Init(), a), b);
    assert s.observers == [a, b];
    var n2 := SetState(s, 2).1;
    assert n2 == [Notice(a, 2, true), Notice(b, 2, false)];
    assert Reactions(n2[1..]) == [] by {
      assert n2[1..][1..] == [];
    }
    var n3 := SetState(SetState(s, 2).0, 3).1;
    assert n3 == [Notice(a, 3, false), Notice(b, 3, true)];
    assert Reactions(n3[1..]) == [b] by {
      assert n3[1..][1..] == [];
    }
  }
}
