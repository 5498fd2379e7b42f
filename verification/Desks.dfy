/** What the user has: three terminals, of which one is on display, and why they do not disturb each other. */
module Desks {
  import opened Words
  import opened Screens
  import L = LineEdit

  /** A terminal: its screen and its edit buffer. */
  datatype Panel = Panel(screen: Screen, edit: L.Edit)

  datatype Desk = Desk(panels: seq<Panel>, shown: nat)

  predicate Sound(p: Panel) {
    |p.screen.cells| == SIZE && L.Valid(p.edit)
  }

  predicate Usable(d: Desk) {
    |d.panels| == 3 && d.shown < 3 && forall t :: 0 <= t < 3 ==> Sound(d.panels[t])
  }

  // ----- one terminal -----

  /** What one terminal is asked to do, whether or not it is on display. */
  datatype Output = Text(text: seq<byte>) | Typed(key: L.Key) | Wipe

  /** None when the cursor has left the screen, or a backspace has nowhere to step back to. */
  function Apply(p: Panel, o: Output): (r: Option<Panel>)
    requires Sound(p)
    ensures r.Some? ==> Sound(r.value)
  {
    match o
    case Text(text) => if InRange(p.screen) then Some(p.(screen := EmitAll(p.screen, text))) else None
    case Typed(k) =>
      (match L.Press(p.screen, p.edit, k)
       case None => None
       case Some(r) => Some(Panel(r.0, r.1)))
    case Wipe => Some(p.(screen := Wiped(p.screen)))
  }

  function Draw(p: Panel, os: seq<Output>): (r: Option<Panel>)
    requires Sound(p)
    ensures r.Some? ==> Sound(r.value)
  {
    if os == [] then Some(p)
    else match Draw(p, os[..|os| - 1])
      case None => None
      case Some(q) => Apply(q, os[|os| - 1])
  }

  // ----- all three -----

  datatype Event =
    | Write(tree: nat, text: seq<byte>)  // a program of tree `tree` writes
    | Press(key: L.Key)                  // a key or backspace, for the displayed terminal
    | Clear                              // control-L
    | Switch(term: int)                  // alt-F1 to alt-F3

  predicate Legal(e: Event) {
    e.Write? ==> e.tree < 3
  }

  /** Terminal `t` does something. */
  function On(d: Desk, t: nat, o: Output): (r: Option<Desk>)
    requires Usable(d) && t < 3
    ensures r.Some? ==> Usable(r.value) && r.value.shown == d.shown
  {
    match Apply(d.panels[t], o)
    case None => None
    case Some(p) => Some(d.(panels := d.panels[t := p]))
  }

  function Step(d: Desk, e: Event): (r: Option<Desk>)
    requires Usable(d) && Legal(e)
    ensures r.Some? ==> Usable(r.value)
  {
    match e
    case Write(t, text) => On(d, t, Text(text))
    case Press(k) => On(d, d.shown, Typed(k))
    case Clear => On(d, d.shown, Wipe)
    case Switch(t) => Some(if 0 <= t <= 2 then d.(shown := t) else d)
  }

  function Steps(d: Desk, es: seq<Event>): (r: Option<Desk>)
    requires Usable(d) && forall e :: e in es ==> Legal(e)
    ensures r.Some? ==> Usable(r.value)
  {
    if es == [] then Some(d)
    else match Steps(d, es[..|es| - 1])
      case None => None
      case Some(d1) => Step(d1, es[|es| - 1])
  }

  /** One terminal did something and the others are as they were. */
  lemma OnIs(d: Desk, t: nat, o: Output, r: Desk)
    requires Usable(d) && t < 3 && |r.panels| == 3 && r.shown == d.shown
    requires Apply(d.panels[t], o) == Some(r.panels[t])
    requires forall u :: 0 <= u < 3 && u != t ==> r.panels[u] == d.panels[u]
    ensures On(d, t, o) == Some(r)
  {
    assert r.panels == d.panels[t := r.panels[t]];
  }

  // ----- independence -----

  function Shown(shown: nat, es: seq<Event>): nat {
    if es == [] then shown
    else
      var before := Shown(shown, es[..|es| - 1]);
      var e := es[|es| - 1];
      if e.Switch? && 0 <= e.term <= 2 then e.term else before
  }

  /** What an event asks of terminal `t`: the writes of its own programs, and what is typed or cleared while it
      is on display. */
  function Part(shown: nat, e: Event, t: nat): seq<Output> {
    match e
    case Write(u, text) => if u == t then [Text(text)] else []
    case Press(k) => if shown == t then [Typed(k)] else []
    case Clear => if shown == t then [Wipe] else []
    case Switch(_) => []
  }

  /** The part of a history that is terminal `t`'s own. */
  function Own(shown: nat, es: seq<Event>, t: nat): seq<Output> {
    if es == [] then []
    else Own(shown, es[..|es| - 1], t) + Part(Shown(shown, es[..|es| - 1]), es[|es| - 1], t)
  }

  lemma DrawMore(p: Panel, os: seq<Output>, more: seq<Output>)
    requires Sound(p) && |more| <= 1
    ensures Draw(p, os + more) ==
            if more == [] || Draw(p, os).None? then Draw(p, os) else Apply(Draw(p, os).value, more[0])
  {
    if more == [] {
      assert os + more == os;
    } else {
      assert (os + more)[..|os|] == os;
    }
  }

  /** One event asks at most one thing, of one terminal, and cannot be done exactly when that terminal cannot. */
  lemma StepParts(d: Desk, e: Event, t: nat)
    requires Usable(d) && Legal(e) && t < 3
    ensures var part := Part(d.shown, e, t);
            && |part| <= 1
            && (Step(d, e).Some? ==>
                  (if part == [] then Step(d, e).value.panels[t] == d.panels[t]
                   else Apply(d.panels[t], part[0]) == Some(Step(d, e).value.panels[t])))
            && (part != [] && Apply(d.panels[t], part[0]).None? ==> Step(d, e).None?)
    ensures Step(d, e).None? ==>
              exists u: nat :: u < 3 && Part(d.shown, e, u) != [] && Apply(d.panels[u], Part(d.shown, e, u)[0]).None?
    ensures Step(d, e).Some? ==> Step(d, e).value.shown == Shown(d.shown, [e])
  {
    if Step(d, e).None? {
      var u := if e.Write? then e.tree else d.shown;
      assert Part(d.shown, e, u) != [];
    }
    assert [e][..0] == [];
  }

  /** Every terminal is what its own outputs make of it. */
  ghost predicate Separate(d: Desk, es: seq<Event>, r: Desk)
    requires Usable(d)
  {
    && |r.panels| == 3 && r.shown == Shown(d.shown, es)
    && forall t: nat :: t < 3 ==> Draw(d.panels[t], Own(d.shown, es, t)) == Some(r.panels[t])
  }

  ghost predicate Stuck(d: Desk, es: seq<Event>)
    requires Usable(d)
  {
    exists t: nat :: t < 3 && Draw(d.panels[t], Own(d.shown, es, t)).None?
  }

  lemma SeparateStep(d: Desk, init: seq<Event>, d1: Desk, e: Event)
    requires Usable(d) && Usable(d1) && Legal(e) && Separate(d, init, d1)
    ensures Step(d1, e).Some? ==> Separate(d, init + [e], Step(d1, e).value)
    ensures Step(d1, e).None? ==> Stuck(d, init + [e])
  {
    var es := init + [e];
    assert es[..|init|] == init;
    StepParts(d1, e, 0);
    forall t: nat | t < 3
      ensures Draw(d.panels[t], Own(d.shown, es, t)) ==
              (var part := Part(d1.shown, e, t); if part == [] then Some(d1.panels[t]) else Apply(d1.panels[t], part[0]))
    {
      StepParts(d1, e, t);
      DrawMore(d.panels[t], Own(d.shown, init, t), Part(d1.shown, e, t));
    }
    if Step(d1, e).Some? {
      forall t: nat | t < 3 ensures Draw(d.panels[t], Own(d.shown, es, t)) == Some(Step(d1, e).value.panels[t]) {
        StepParts(d1, e, t);
      }
    }
  }

  lemma StuckStays(d: Desk, init: seq<Event>, e: Event)
    requires Usable(d) && Legal(e) && Stuck(d, init)
    ensures Stuck(d, init + [e])
  {
    var t: nat :| t < 3 && Draw(d.panels[t], Own(d.shown, init, t)).None?;
    assert (init + [e])[..|init|] == init;
    DrawMore(d.panels[t], Own(d.shown, init, t), Part(Shown(d.shown, init), e, t));
    assert Draw(d.panels[t], Own(d.shown, init + [e], t)).None?;
  }

  /** Display transparency: after any history of writes, keys, backspaces, clears and switches each terminal's
      screen and edit buffer are what its own outputs alone would have made of them; and the history can
      be gone through exactly when each terminal can go through its own. */
  lemma {:induction false} TerminalsIndependent(d: Desk, es: seq<Event>)
    requires Usable(d) && forall e :: e in es ==> Legal(e)
    ensures Steps(d, es).Some? ==> Separate(d, es, Steps(d, es).value)
    ensures Steps(d, es).None? <==> Stuck(d, es)
  {
    if es != [] {
      var init, e := es[..|es| - 1], es[|es| - 1];
      assert es == init + [e] && e in es;
      TerminalsIndependent(d, init);
      if Steps(d, init).Some? {
        SeparateStep(d, init, Steps(d, init).value, e);
      } else {
        StuckStays(d, init, e);
      }
    }
  }

  lemma {:induction false} StepsBefore(d: Desk, es: seq<Event>, i: nat)
    requires Usable(d) && i < |es| && (forall e :: e in es ==> Legal(e)) && Steps(d, es).Some?
    ensures Steps(d, es[..i]).Some? && Step(Steps(d, es[..i]).value, es[i]).Some?
    ensures Steps(d, es[..i + 1]) == Step(Steps(d, es[..i]).value, es[i])
    decreases |es|
  {
    assert es[..i + 1][..i] == es[..i];
    if i < |es| - 1 {
      var init := es[..|es| - 1];
      StepsBefore(d, init, i);
      assert init[..i] == es[..i];
    } else {
      assert es[..i + 1] == es;
    }
  }
}
