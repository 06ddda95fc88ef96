/** The privacy and terms dialogs. Links marked as openers open the dialog
    whose id is `modal-` followed by their name; while a dialog is open, page
    scrolling is switched off, Tab and Shift+Tab wrap around its focusable
    elements, and focus returns on closing to the element that had it when a
    dialog was last opened. Clicking the backdrop or a close control closes a
    dialog, and Escape closes every open dialog. */
module Modals {
  import opened Optional

  // ---------------------------------------------------------------------
  // the page: dialogs and their focusable elements

  /** An element inside a dialog that matches the focusable-element selector
      (links with an `href`, enabled buttons, form controls, elements with a
      `tabindex` other than -1): its identity, and whether it or one of its
      ancestors carries the `inert` attribute. */
  datatype Candidate = Candidate(elem: nat, inert: bool)

  /** A `.modal` element of the page: its `id` and the candidates inside it, in
      document order. The page's dialogs are numbered in document order. */
  datatype Dialog = Dialog(id: string, candidates: seq<Candidate>)

  /** `getFocusable`: the candidates that are not inert, in document order. */
  function Focusables(cands: seq<Candidate>): (r: seq<nat>)
    ensures |r| <= |cands|
    ensures forall e :: e in r <==> Candidate(e, false) in cands
  {
    if cands == [] then []
    else
      var rest := Focusables(cands[1..]);
      assert forall c :: c in cands <==> c == cands[0] || c in cands[1..];
      if cands[0].inert then rest else [cands[0].elem] + rest
  }

  /** The first focusable element is the first candidate that is not inert. */
  lemma {:induction false} FirstFocusable(cands: seq<Candidate>)
    ensures Focusables(cands) != [] ==>
      exists k :: 0 <= k < |cands| && cands[k] == Candidate(Focusables(cands)[0], false) &&
        forall j :: 0 <= j < k ==> cands[j].inert
  {
    if cands != [] && cands[0].inert {
      FirstFocusable(cands[1..]);
      if Focusables(cands) != [] {
        var k :| 0 <= k < |cands[1..]| && cands[1..][k] == Candidate(Focusables(cands)[0], false) &&
          forall j :: 0 <= j < k ==> cands[1..][j].inert;
        assert cands[k + 1] == Candidate(Focusables(cands)[0], false);
        assert forall j :: 0 < j < k + 1 ==> cands[j] == cands[1..][j - 1];
      }
    } else if cands != [] {
      assert cands[0] == Candidate(Focusables(cands)[0], false);
    }
  }

  /** The last focusable element is the last candidate that is not inert. */
  lemma {:induction false} LastFocusable(cands: seq<Candidate>)
    ensures var list := Focusables(cands);
      list != [] ==>
        exists k :: 0 <= k < |cands| && cands[k] == Candidate(list[|list| - 1], false) &&
          forall j :: k < j < |cands| ==> cands[j].inert
  {
    var list := Focusables(cands);
    if list != [] {
      var tail := cands[1..];
      var rest := Focusables(tail);
      if rest != [] {
        LastFocusable(tail);
        var k :| 0 <= k < |tail| && tail[k] == Candidate(rest[|rest| - 1], false) &&
          forall j :: k < j < |tail| ==> tail[j].inert;
        assert list[|list| - 1] == rest[|rest| - 1];
        assert cands[k + 1] == tail[k];
        assert forall j :: k + 1 < j < |cands| ==> cands[j] == tail[j - 1];
      } else {
        NoFocusableAllInert(tail);
        assert forall j :: 0 < j < |cands| ==> cands[j] == tail[j - 1];
      }
    }
  }

  /** Without focusable elements every candidate is inert. */
  lemma {:induction false} NoFocusableAllInert(cands: seq<Candidate>)
    requires Focusables(cands) == []
    ensures forall j :: 0 <= j < |cands| ==> cands[j].inert
  {
    if cands != [] {
      NoFocusableAllInert(cands[1..]);
      assert forall j :: 0 < j < |cands| ==> cands[j] == cands[1..][j - 1];
    }
  }

  /** Focusables keeps document order: it distributes over concatenation. */
  lemma {:induction false} FocusablesAppend(a: seq<Candidate>, b: seq<Candidate>)
    ensures Focusables(a + b) == Focusables(a) + Focusables(b)
  {
    if a != [] {
      FocusablesAppend(a[1..], b);
      assert (a + b)[0] == a[0] && (a + b)[1..] == a[1..] + b;
    } else {
      assert a + b == b;
    }
  }

  /** The first index at or after `k` whose dialog has that id, or `|dialogs|`. */
  function FindDialog(dialogs: seq<Dialog>, id: string, k: nat): (i: nat)
    requires k <= |dialogs|
    ensures k <= i <= |dialogs| && (i < |dialogs| ==> dialogs[i].id == id)
    ensures forall j :: k <= j < i ==> dialogs[j].id != id
    decreases |dialogs| - k
  {
    if k == |dialogs| || dialogs[k].id == id then k else FindDialog(dialogs, id, k + 1)
  }

  /** `document.getElementById(id)` among the dialogs: the first dialog, in
      document order, with that id, or `None` when there is none. */
  function Lookup(dialogs: seq<Dialog>, id: string): (r: Option<nat>)
    ensures r.Some? ==>
      r.value < |dialogs| && dialogs[r.value].id == id &&
      forall j :: 0 <= j < r.value ==> dialogs[j].id != id
    ensures r.None? <==> forall j :: 0 <= j < |dialogs| ==> dialogs[j].id != id
  {
    var i := FindDialog(dialogs, id, 0);
    if i < |dialogs| then Some(i) else None
  }

  /** The id an opener's name refers to. */
  function ModalId(name: string): string
  {
    "modal-" + name
  }

  // ---------------------------------------------------------------------
  // the focus trap

  /** Where the trap sends focus on Tab (`shift` false) or Shift+Tab, given a
      dialog's focusable elements and the focused element: Shift+Tab on the
      first element goes to the last, Tab on the last goes to the first, and
      in every other case, and for an empty list, the trap does nothing
      (`None`) and the browser moves focus as it normally would. */
  function WrapTarget(list: seq<nat>, active: Option<nat>, shift: bool): (r: Option<nat>)
    ensures r.Some? <==>
      list != [] && active == Some(if shift then list[0] else list[|list| - 1])
    ensures r.Some? ==> r == Some(if shift then list[|list| - 1] else list[0])
  {
    if list == [] then None
    else
      var first := list[0];
      var last := list[|list| - 1];
      if shift && active == Some(first) then Some(last)
      else if !shift && active == Some(last) then Some(first)
      else None
  }

  /** Focus after one run of the trap for a Tab key. */
  function Refocused(list: seq<nat>, active: Option<nat>, shift: bool): Option<nat>
  {
    match WrapTarget(list, active, shift)
    case Some(e) => Some(e)
    case None => active
  }

  /** Running the trap a second time after the first leaves focus where the
      first run put it, and a second run only suppresses the browser's move
      when the first did; so a dialog with several trap listeners (one is
      added each time it is opened) behaves as if it had one. */
  lemma TrapTwiceIsOnce(list: seq<nat>, active: Option<nat>, shift: bool)
    ensures Refocused(list, Refocused(list, active, shift), shift) == Refocused(list, active, shift)
    ensures WrapTarget(list, Refocused(list, active, shift), shift).Some? ==>
      WrapTarget(list, active, shift).Some?
  {
  }

  /** The trap only ever moves focus to an element of the dialog that is not
      inert. */
  lemma TrapStaysInDialog(cands: seq<Candidate>, active: Option<nat>, shift: bool)
    ensures var r := WrapTarget(Focusables(cands), active, shift);
      r.Some? ==> Candidate(r.value, false) in cands
  {
    var list := Focusables(cands);
    if list != [] {
      assert list[0] in list && list[|list| - 1] in list;
    }
  }

  // ---------------------------------------------------------------------
  // the controller's state and its transitions

  /** The controller's state: which dialogs carry the class `open`, which
      carry `aria-hidden="true"`, how many trap listeners each dialog has
      (one more each time it is opened, dropped by the first key press after
      it closes), the shared `lastFocused` slot, the body's `no-scroll`
      class, and the focused element (`None` when nothing is focused). */
  datatype State = State(open: set<nat>, hidden: set<nat>, traps: multiset<nat>,
                         lastFocused: Option<nat>, noScroll: bool, active: Option<nat>)

  /** A state speaks only of the page's `n` dialogs. */
  predicate Fits(s: State, n: nat)
  {
    (forall i :: i in s.open ==> i < n) &&
    (forall i :: i in s.hidden ==> i < n) &&
    (forall i :: i in s.traps ==> i < n)
  }

  /** No dialog is both open and hidden from assistive technology. */
  predicate Coherent(s: State)
  {
    s.open * s.hidden == {}
  }

  /** The result of an event handler: the new state and whether it
      suppressed the browser's default action. */
  datatype Outcome = Outcome(state: State, prevented: bool)

  /** `openModal(name)`: an unknown name changes nothing. Otherwise the
      focused element is remembered, the dialog is opened and un-hidden,
      scrolling is switched off, a trap listener is added and the first
      focusable element, if there is one, takes focus. */
  function Opened(dialogs: seq<Dialog>, s: State, name: string): State
  {
    match Lookup(dialogs, ModalId(name))
    case None => s
    case Some(i) =>
      var list := Focusables(dialogs[i].candidates);
      State(s.open + {i}, s.hidden - {i}, s.traps + multiset{i}, s.active, true,
            if list != [] then Some(list[0]) else s.active)
  }

  lemma OpenedSpec(dialogs: seq<Dialog>, s: State, name: string)
    ensures Lookup(dialogs, ModalId(name)).None? ==> Opened(dialogs, s, name) == s
    ensures Lookup(dialogs, ModalId(name)).Some? ==>
      var i := Lookup(dialogs, ModalId(name)).value;
      var t := Opened(dialogs, s, name);
      dialogs[i].id == ModalId(name) &&
      t.open == s.open + {i} && t.hidden == s.hidden - {i} &&
      t.traps == s.traps + multiset{i} &&
      t.lastFocused == s.active && t.noScroll &&
      t.active == (if Focusables(dialogs[i].candidates) != [] then Some(Focusables(dialogs[i].candidates)[0]) else s.active) &&
      (t.active != s.active ==> Candidate(t.active.value, false) in dialogs[i].candidates)
  {
    if Lookup(dialogs, ModalId(name)).Some? {
      var i := Lookup(dialogs, ModalId(name)).value;
      var list := Focusables(dialogs[i].candidates);
      if list != [] {
        assert list[0] in list;
      }
    }
  }

  /** Opening a dialog that holds a candidate that is not inert moves focus to
      the first such candidate in document order. */
  lemma OpenedFocusesFirstCandidate(dialogs: seq<Dialog>, s: State, name: string, e: nat)
    requires Lookup(dialogs, ModalId(name)).Some?
    requires Candidate(e, false) in dialogs[Lookup(dialogs, ModalId(name)).value].candidates
    ensures var cands := dialogs[Lookup(dialogs, ModalId(name)).value].candidates;
      var t := Opened(dialogs, s, name);
      t.active.Some? &&
      exists k :: 0 <= k < |cands| && cands[k] == Candidate(t.active.value, false) &&
        forall j :: 0 <= j < k ==> cands[j].inert
  {
    var cands := dialogs[Lookup(dialogs, ModalId(name)).value].candidates;
    assert e in Focusables(cands);
    FirstFocusable(cands);
  }

  /** `closeModal(dialog)`: the dialog loses `open` and becomes hidden,
      scrolling is switched back on, and focus returns to the remembered
      element when there is one. */
  function Closed(s: State, i: nat): State
  {
    State(s.open - {i}, s.hidden + {i}, s.traps, s.lastFocused, false,
          if s.lastFocused.Some? then s.lastFocused else s.active)
  }

  /** Opening a dialog and closing it again gives focus back to the element
      that had it, leaves the dialog closed and scrolling on. */
  lemma OpenThenCloseRestoresFocus(dialogs: seq<Dialog>, s: State, name: string)
    requires Lookup(dialogs, ModalId(name)).Some?
    requires s.active.Some?
    ensures var i := Lookup(dialogs, ModalId(name)).value;
      var t := Closed(Opened(dialogs, s, name), i);
      t.active == s.active && i !in t.open && i in t.hidden && !t.noScroll
  {
  }

  /** There is one `lastFocused` slot for all dialogs: when a second dialog
      is opened from inside an open one, closing both sends focus to where
      it was inside the first dialog, not to where it was before either was
      opened. */
  lemma NestedOpenForgetsOrigin(dialogs: seq<Dialog>, s: State, outer: string, inner: string)
    requires Lookup(dialogs, ModalId(outer)).Some? && Lookup(dialogs, ModalId(inner)).Some?
    requires Focusables(dialogs[Lookup(dialogs, ModalId(outer)).value].candidates) != []
    ensures var i := Lookup(dialogs, ModalId(outer)).value;
      var j := Lookup(dialogs, ModalId(inner)).value;
      var t := Closed(Closed(Opened(dialogs, Opened(dialogs, s, outer), inner), j), i);
      t.active == Some(Focusables(dialogs[i].candidates)[0])
  {
  }

  /** Closing one dialog switches scrolling back on even while another dialog
      is still open. */
  lemma CloseIgnoresOtherOpenDialogs(s: State, i: nat, j: nat)
    requires i != j && i in s.open && j in s.open
    ensures j in Closed(s, i).open && !Closed(s, i).noScroll
  {
  }

  /** The trap listeners of dialog `i` handling a key press (see
      `TrapTwiceIsOnce` for why several listeners act as one). A dialog
      without listeners ignores the key. When it is no longer open, every
      listener removes itself. Otherwise only Tab matters, and it moves focus
      by `WrapTarget`, suppressing the browser's move when it does. */
  function TrapEffect(dialogs: seq<Dialog>, s: State, i: nat, key: string, shift: bool): Outcome
    requires i < |dialogs|
  {
    if i !in s.traps then Outcome(s, false)
    else if i !in s.open then Outcome(s.(traps := s.traps[i := 0]), false)
    else if key != "Tab" then Outcome(s, false)
    else match WrapTarget(Focusables(dialogs[i].candidates), s.active, shift)
         case None => Outcome(s, false)
         case Some(e) => Outcome(s.(active := Some(e)), true)
  }

  /** The trap changes no dialog, and at most the focus and its own listeners;
      it acts only on Tab in an open dialog, where it wraps around the
      focusable elements. */
  lemma TrapEffectSpec(dialogs: seq<Dialog>, s: State, i: nat, key: string, shift: bool)
    requires i < |dialogs|
    ensures var o := TrapEffect(dialogs, s, i, key, shift);
      o.state.open == s.open && o.state.hidden == s.hidden &&
      o.state.lastFocused == s.lastFocused && o.state.noScroll == s.noScroll &&
      (o.state.active != s.active || o.prevented ==>
        i in s.traps && i in s.open && key == "Tab" &&
        o.prevented && o.state.active == WrapTarget(Focusables(dialogs[i].candidates), s.active, shift)) &&
      ((i in s.traps && i in s.open && key == "Tab" &&
        WrapTarget(Focusables(dialogs[i].candidates), s.active, shift).Some?) ==> o.prevented)
  {
  }

  /** Pressing a key a second time in a dialog whose listeners have just
      removed themselves does nothing. */
  lemma ClosedTrapRemovesItself(dialogs: seq<Dialog>, s: State, i: nat, key: string, shift: bool)
    requires i < |dialogs| && i !in s.open
    ensures var o := TrapEffect(dialogs, s, i, key, shift);
      i !in o.state.traps && TrapEffect(dialogs, o.state, i, key, shift) == Outcome(o.state, false)
  {
  }

  /** The open dialogs below `n`, in document order. */
  function OpenInOrder(open: set<nat>, n: nat): (r: seq<nat>)
    ensures forall i :: i in r <==> i in open && i < n
    ensures forall j, k :: 0 <= j < k < |r| ==> r[j] < r[k]
  {
    if n == 0 then []
    else
      var r := OpenInOrder(open, n - 1);
      assert forall k :: 0 <= k < |r| ==> r[k] in r;
      if n - 1 in open then r + [n - 1] else r
  }

  /** Closing the dialogs of `order` one after another. */
  function CloseEach(s: State, order: seq<nat>): State
  {
    if order == [] then s
    else Closed(CloseEach(s, order[..|order| - 1]), order[|order| - 1])
  }

  /** Closing a list of dialogs closes and hides exactly those, leaves the
      listeners and the remembered element alone, switches scrolling back on
      and restores focus, unless the list is empty. */
  lemma {:induction false} CloseEachSpec(s: State, order: seq<nat>)
    ensures var t := CloseEach(s, order);
      t.open == s.open - (set i | i in order) &&
      t.hidden == s.hidden + (set i | i in order) &&
      t.traps == s.traps && t.lastFocused == s.lastFocused &&
      t.noScroll == (s.noScroll && order == []) &&
      t.active == (if order != [] && s.lastFocused.Some? then s.lastFocused else s.active)
  {
    if order != [] {
      var front := order[..|order| - 1];
      CloseEachSpec(s, front);
      assert (set i | i in order) == (set i | i in front) + {order[|order| - 1]} by {
        assert order == front + [order[|order| - 1]];
      }
    }
  }

  /** The Escape handler: every open dialog, in document order, is closed. */
  function Escaped(s: State, n: nat): State
  {
    CloseEach(s, OpenInOrder(s.open, n))
  }

  /** After Escape no dialog is open, every dialog that was open is hidden,
      and scrolling is back on when any was open; with none open, Escape
      changes nothing. */
  lemma EscapeClosesAll(s: State, n: nat)
    requires Fits(s, n)
    ensures Escaped(s, n).open == {}
    ensures Escaped(s, n).hidden == s.hidden + s.open
    ensures s.open != {} ==> !Escaped(s, n).noScroll
    ensures s.open == {} ==> Escaped(s, n) == s
  {
    var order := OpenInOrder(s.open, n);
    CloseEachSpec(s, order);
    assert (set i | i in order) == s.open;
    if s.open != {} {
      var i :| i in s.open;
      assert i in order;
    }
  }

  /** One element of the ancestor chain of a click's target, from the target
      up: the dialog it is, if it is one, and whether it carries
      `data-modal-close`. */
  datatype Node = Node(dialog: Option<nat>, closer: bool)

  /** The target itself is an open dialog: the click landed on a backdrop. */
  predicate Backdrop(chain: seq<Node>, open: set<nat>)
  {
    chain != [] && chain[0].dialog.Some? && chain[0].dialog.value in open
  }

  /** The first index at or after `k` that is a close control, or `|chain|`. */
  function FindCloser(chain: seq<Node>, k: nat): (i: nat)
    requires k <= |chain|
    ensures k <= i <= |chain| && (i < |chain| ==> chain[i].closer)
    ensures forall j :: k <= j < i ==> !chain[j].closer
    decreases |chain| - k
  {
    if k == |chain| || chain[k].closer then k else FindCloser(chain, k + 1)
  }

  /** The first index at or after `k` that is a dialog, or `|chain|`. */
  function FindModal(chain: seq<Node>, k: nat): (i: nat)
    requires k <= |chain|
    ensures k <= i <= |chain| && (i < |chain| ==> chain[i].dialog.Some?)
    ensures forall j :: k <= j < i ==> chain[j].dialog.None?
    decreases |chain| - k
  {
    if k == |chain| || chain[k].dialog.Some? then k else FindModal(chain, k + 1)
  }

  /** The dialog a document click closes: the backdrop that was clicked, or
      else the nearest dialog around the nearest close control around the
      target, or none. The dialog found from a close control is closed even
      when it is not open. */
  function ClosedByClick(chain: seq<Node>, open: set<nat>): (r: Option<nat>)
    ensures r.Some? ==> exists k :: 0 <= k < |chain| && chain[k].dialog == r
    ensures Backdrop(chain, open) ==> r == chain[0].dialog
    ensures !Backdrop(chain, open) && r.Some? ==>
      exists c, d :: 0 <= c <= d < |chain| && chain[c].closer && chain[d].dialog == r &&
        (forall j :: 0 <= j < c ==> !chain[j].closer) &&
        (forall j :: c <= j < d ==> chain[j].dialog.None?)
    ensures !Backdrop(chain, open) ==>
      (r.Some? <==>
        exists c, d :: 0 <= c <= d < |chain| && chain[c].closer && chain[d].dialog.Some? &&
          (forall j :: 0 <= j < c ==> !chain[j].closer) &&
          (forall j :: c <= j < d ==> chain[j].dialog.None?))
    ensures !Backdrop(chain, open) && (forall k :: 0 <= k < |chain| ==> !chain[k].closer) ==> r == None
  {
    if Backdrop(chain, open) then chain[0].dialog
    else
      var c := FindCloser(chain, 0);
      if c == |chain| then None
      else
        var d := FindModal(chain, c);
        if d == |chain| then None else chain[d].dialog
  }

  /** The document click handler. */
  function Clicked(s: State, chain: seq<Node>): State
  {
    match ClosedByClick(chain, s.open)
    case None => s
    case Some(i) => Closed(s, i)
  }

  /** A click on an open dialog's backdrop closes that dialog. */
  lemma BackdropClickCloses(s: State, chain: seq<Node>)
    requires Backdrop(chain, s.open)
    ensures Clicked(s, chain) == Closed(s, chain[0].dialog.value)
  {
  }

  /** Otherwise a click under a close control closes the nearest dialog
      around the nearest close control, whether that dialog is open or not. */
  lemma CloserClosesEnclosingDialog(s: State, chain: seq<Node>, c: nat, d: nat)
    requires !Backdrop(chain, s.open)
    requires c <= d < |chain| && chain[c].closer && chain[d].dialog.Some?
    requires forall j :: 0 <= j < c ==> !chain[j].closer
    requires forall j :: c <= j < d ==> chain[j].dialog.None?
    ensures Clicked(s, chain) == Closed(s, chain[d].dialog.value)
  {
    assert FindCloser(chain, 0) == c;
    assert FindModal(chain, c) == d;
  }

  /** A click that is neither on a backdrop nor under a close control leaves
      every dialog as it was. */
  lemma ClickWithoutCloserKeepsDialogs(s: State, chain: seq<Node>)
    requires !Backdrop(chain, s.open)
    requires forall k :: 0 <= k < |chain| ==> !chain[k].closer
    ensures Clicked(s, chain) == s
  {
  }

  /** A key press whose target lies inside dialog `within` (or in no dialog):
      that dialog's trap listeners run first, then the document's Escape
      handler. */
  function KeyDownEffect(dialogs: seq<Dialog>, s: State, within: Option<nat>, key: string, shift: bool): Outcome
    requires within.Some? ==> within.value < |dialogs|
  {
    var t := if within.Some? then TrapEffect(dialogs, s, within.value, key, shift) else Outcome(s, false);
    if key == "Escape" then Outcome(Escaped(t.state, |dialogs|), t.prevented) else t
  }

  /** After Escape, wherever it was pressed, no dialog is open and the
      browser's default action is left alone. */
  lemma EscapeKeyClosesAll(dialogs: seq<Dialog>, s: State, within: Option<nat>, shift: bool)
    requires within.Some? ==> within.value < |dialogs|
    requires Fits(s, |dialogs|)
    ensures KeyDownEffect(dialogs, s, within, "Escape", shift).state.open == {}
    ensures !KeyDownEffect(dialogs, s, within, "Escape", shift).prevented
  {
    var t := if within.Some? then TrapEffect(dialogs, s, within.value, "Escape", shift) else Outcome(s, false);
    if within.Some? {
      TrapEffectSpec(dialogs, s, within.value, "Escape", shift);
    }
    assert Fits(t.state, |dialogs|);
    EscapeClosesAll(t.state, |dialogs|);
  }

  /** Every handler keeps an open dialog visible to assistive technology. */
  lemma CoherentPreserved(dialogs: seq<Dialog>, s: State, name: string, i: nat,
                          chain: seq<Node>, within: Option<nat>, key: string, shift: bool)
    requires Coherent(s)
    requires within.Some? ==> within.value < |dialogs|
    ensures Coherent(Opened(dialogs, s, name))
    ensures Coherent(Closed(s, i))
    ensures Coherent(Clicked(s, chain))
    ensures Coherent(KeyDownEffect(dialogs, s, within, key, shift).state)
  {
    var t := if within.Some? then TrapEffect(dialogs, s, within.value, key, shift) else Outcome(s, false);
    if within.Some? {
      TrapEffectSpec(dialogs, s, within.value, key, shift);
    }
    CloseEachSpec(t.state, OpenInOrder(t.state.open, |dialogs|));
  }

  // ---------------------------------------------------------------------
  // the controller

  /** The dialog controller of the page: the dialogs (fixed) and the state
      its handlers change. */
  class ModalController {
    const dialogs: seq<Dialog>
    var open: set<nat>
    var hidden: set<nat>
    var traps: multiset<nat>
    var lastFocused: Option<nat>
    var noScroll: bool
    var active: Option<nat>

    function Snapshot(): State
      reads this
    {
      State(open, hidden, traps, lastFocused, noScroll, active)
    }

    predicate Valid()
      reads this
    {
      Fits(Snapshot(), |dialogs|)
    }

    /** The controller as the page loads: the dialogs' classes and
      attributes as written in the page, no trap listener and nothing
      remembered. */
    constructor (dialogs: seq<Dialog>, open: set<nat>, hidden: set<nat>, noScroll: bool, active: Option<nat>)
      requires forall i :: i in open ==> i < |dialogs|
      requires forall i :: i in hidden ==> i < |dialogs|
      ensures Valid() && this.dialogs == dialogs
      ensures Snapshot() == State(open, hidden, multiset{}, None, noScroll, active)
    {
      this.dialogs := dialogs;
      this.open := open;
      this.hidden := hidden;
      traps := multiset{};
      lastFocused := None;
      this.noScroll := noScroll;
      this.active := active;
    }

    method OpenModal(name: string)
      requires Valid()
      modifies this
      ensures Valid()
      ensures Snapshot() == Opened(dialogs, old(Snapshot()), name)
    {
      var found := Lookup(dialogs, ModalId(name));
      if found.None? {
        return;
      }
      var i := found.value;
      lastFocused := active;
      open := open + {i};
      hidden := hidden - {i};
      noScroll := true;
      var list := Focusables(dialogs[i].candidates);
      if list != [] {
        active := Some(list[0]);
      }
      traps := traps + multiset{i};
    }

    /** A click on an opener: the browser's default action is always
        suppressed and the named dialog is opened. */
    method OpenerClick(name: string) returns (defaultPrevented: bool)
      requires Valid()
      modifies this
      ensures Valid()
      ensures defaultPrevented
      ensures Snapshot() == Opened(dialogs, old(Snapshot()), name)
    {
      defaultPrevented := true;
      OpenModal(name);
    }

    /** `closeModal`, which does nothing when given no dialog. */
    method CloseModal(dialog: Option<nat>)
      requires Valid() && (dialog.Some? ==> dialog.value < |dialogs|)
      modifies this
      ensures Valid()
      ensures Snapshot() == if dialog.Some? then Closed(old(Snapshot()), dialog.value) else old(Snapshot())
    {
      if dialog.None? {
        return;
      }
      open := open - {dialog.value};
      hidden := hidden + {dialog.value};
      noScroll := false;
      if lastFocused.Some? {
        active := lastFocused;
      }
    }

    /** The document click handler, given the target's ancestor chain. */
    method DocumentClick(chain: seq<Node>)
      requires Valid()
      requires forall k :: 0 <= k < |chain| && chain[k].dialog.Some? ==> chain[k].dialog.value < |dialogs|
      modifies this
      ensures Valid()
      ensures Snapshot() == Clicked(old(Snapshot()), chain)
    {
      if Backdrop(chain, open) {
        CloseModal(chain[0].dialog);
        return;
      }
      var c := FindCloser(chain, 0);
      if c < |chain| {
        var d := FindModal(chain, c);
        CloseModal(if d < |chain| then chain[d].dialog else None);
      }
    }

    /** The trap listeners of dialog `i` handling a key press. */
    method Trap(i: nat, key: string, shift: bool) returns (defaultPrevented: bool)
      requires Valid() && i < |dialogs|
      modifies this
      ensures Valid()
      ensures Outcome(Snapshot(), defaultPrevented) == TrapEffect(dialogs, old(Snapshot()), i, key, shift)
    {
      defaultPrevented := false;
      if i !in traps {
        return;
      }
      if i !in open {
        traps := traps[i := 0];
        return;
      }
      if key != "Tab" {
        return;
      }
      var list := Focusables(dialogs[i].candidates);
      if list == [] {
        return;
      }
      var first := list[0];
      var last := list[|list| - 1];
      if shift && active == Some(first) {
        defaultPrevented := true;
        active := Some(last);
      } else if !shift && active == Some(last) {
        defaultPrevented := true;
        active := Some(first);
      }
    }

    /** The document's Escape handler: closes each dialog that is open when
        the key is pressed, in document order. */
    method CloseAllOnEscape(key: string)
      requires Valid()
      modifies this
      ensures Valid()
      ensures Snapshot() == if key == "Escape" then Escaped(old(Snapshot()), |dialogs|) else old(Snapshot())
    {
      if key != "Escape" {
        return;
      }
      var order := OpenInOrder(open, |dialogs|);
      var k := 0;
      while k < |order|
        invariant 0 <= k <= |order|
        invariant Valid()
        invariant Snapshot() == CloseEach(old(Snapshot()), order[..k])
      {
        assert order[k] in order;
        CloseModal(Some(order[k]));
        assert order[..k + 1][..k] == order[..k];
        k := k + 1;
      }
      assert order[..k] == order;
    }

    /** A key press whose target lies inside dialog `within`, or in no
        dialog. */
    method KeyDown(within: Option<nat>, key: string, shift: bool) returns (defaultPrevented: bool)
      requires Valid() && (within.Some? ==> within.value < |dialogs|)
      modifies this
      ensures Valid()
      ensures Outcome(Snapshot(), defaultPrevented) == KeyDownEffect(dialogs, old(Snapshot()), within, key, shift)
    {
      defaultPrevented := false;
      if within.Some? {
        defaultPrevented := Trap(within.value, key, shift);
      }
      CloseAllOnEscape(key);
    }
  }
}
