/**
 * The page side of the recorder: the record reported for a click, a field
 * event or an Enter key press, and the debouncing of `input` events per
 * field selector (one report per burst of typing, flushed early by
 * `change` and `blur`).
 */
module PageScript {
  import opened Wrappers
  import opened JsText
  import opened Dom
  import opened Selectors
  import opened Interactions

  /** How much of an element's trimmed text a record keeps. */
  const TextLimit := 120

  /** The quiet period of the input debounce, in milliseconds. */
  const DebounceMs := 1000

  /** `s.slice(0, n)`. */
  function Truncate(s: string, n: nat): (r: string)
    ensures r <= s
    ensures |r| == (if |s| <= n then |s| else n)
  {
    if |s| <= n then s else s[..n]
  }

  /** The attributes a record carries: five attribute lookups and the first
      120 characters of the trimmed text. */
  function AttrsOf(e: Element): Attrs {
    Attrs(
      GetAttr(e, "name"), GetAttr(e, "type"), GetAttr(e, "placeholder"),
      GetAttr(e, "id"), GetAttr(e, "role"),
      Some(Truncate(Trim(e.text), TextLimit)))
  }

  /** The object handed to `reportInteraction` for element `e`. The page never
      sets `network` or `reqUrl`; the host does. */
  function Report(e: Element, action: Action, selector: string, meta: Option<Meta>, now: int, url: string): Interaction {
    Interaction(Some(selector), action, Lower(e.tag), AttrsOf(e), meta, false, None, now, Some(url))
  }

  /** What `pushInteractionRaw(el, action)` reports, if anything: the selector
      comes from the click or field decision, the tag and attributes from
      `el` itself. */
  function RawRecord(o: Oracle, root: Element, el: Path, action: Action, now: int, url: string): Option<Interaction>
    requires ValidPath(root, el)
  {
    match Decision(o, root, el, action)
    case Skipped(_) => None
    case Accepted(sel) => Some(Report(NodeAt(root, el), action, sel, None, now, url))
  }

  /** Every short selector is a non-empty string. */
  lemma ShortSelectorNonEmpty(root: Element, p: Path)
    requires ValidPath(root, p)
    ensures |ShortSelector(root, p)| > 0
  {
  }

  /** Every chain is non-empty, because its last part is a short selector. */
  lemma {:induction false} ChainNonEmpty(shorts: seq<string>, k: nat)
    requires k < |shorts| && |shorts[|shorts| - 1]| > 0
    ensures |ChainOf(shorts, k)| > 0
  {
    if k > 0 {
      ChainNonEmpty(shorts, k - 1);
    }
  }

  lemma UniqueSelNonEmpty(count: string -> nat, root: Element, p: Path)
    requires ValidPath(root, p)
    ensures |UniqueSel(count, root, p)| > 0
  {
    var shorts := AncestorShorts(root, p);
    AncestorShortsAt(root, p, |p|);
    assert p[..|p|] == p;
    ShortSelectorNonEmpty(root, p);
    ChainNonEmpty(shorts, UniqueLevel(count, shorts, 0));
  }

  /** The decision `pushInteractionRaw` takes for `action`. */
  function Decision(o: Oracle, root: Element, el: Path, action: Action): Built
    requires ValidPath(root, el)
  {
    if action == Click then ForClick(o, root, el) else ForField(o, root, el)
  }

  /** An accepted selector is never empty and matches exactly one node. */
  lemma AcceptedSelectorIsUnique(o: Oracle, root: Element, el: Path, action: Action)
    requires ValidPath(root, el)
    ensures var b := Decision(o, root, el, action);
      b.Accepted? ==> |b.selector| > 0 && IsUnique(o.count, b.selector)
  {
    if action == Click {
      ClickDecision(o, root, el);
      if ForClick(o, root, el).Accepted? {
        UniqueSelNonEmpty(o.count, root, ChosenForClick(o, root, el).value);
      }
    } else {
      FieldDecision(o, root, el, o.visible);
      UniqueSelNonEmpty(o.count, root, el);
    }
  }

  /** A reported record always has a truthy selector that matches exactly one
      node, keeps the action, and takes its tag from the event target. */
  lemma RecordedSelectorIsUnique(o: Oracle, root: Element, el: Path, action: Action, now: int, url: string)
    requires ValidPath(root, el)
    ensures var r := RawRecord(o, root, el, action, now, url);
      r.Some? ==>
        && Truthy(r.value.selector)
        && IsUnique(o.count, r.value.selector.value)
        && r.value.action == action
        && r.value.tagName == Lower(NodeAt(root, el).tag)
        && !r.value.network && r.value.reqUrl == None && r.value.meta == None
  {
    AcceptedSelectorIsUnique(o, root, el, action);
  }

  /** `pushInteractionRaw(el, action)`, returning what it reports. */
  method PushInteractionRaw(o: Oracle, root: Element, el: Path, action: Action, now: int, url: string)
    returns (rec: Option<Interaction>)
    requires ValidPath(root, el)
    ensures rec == RawRecord(o, root, el, action, now, url)
  {
    assert Decision(o, root, el, action) == if action == Click then ForClick(o, root, el) else ForField(o, root, el);
    var built: Built;
    if action == Click {
      built := BuildSelectorForClick(o, root, el);
    } else {
      built := BuildSelectorForField(o, root, el);
    }
    if built.Skipped? {
      return None;
    }
    rec := Some(Report(NodeAt(root, el), action, built.selector, None, now, url));
  }

  /** The `keydown` handler: only Enter is recorded, against the focused
      element, with the field decision and `meta.key` set to `Enter`. */
  method OnKeydown(o: Oracle, root: Element, focused: Path, key: string, now: int, url: string)
    returns (rec: Option<Interaction>)
    requires ValidPath(root, focused)
    ensures rec.Some? <==> key == "Enter" && ForField(o, root, focused).Accepted?
    ensures rec.Some? ==>
      && rec.value.action == Press
      && rec.value.selector == Some(ForField(o, root, focused).selector)
      && rec.value.meta == Some(Meta(Some("Enter"), None))
      && rec.value.tagName == Lower(NodeAt(root, focused).tag)
      && rec.value.attrs == AttrsOf(NodeAt(root, focused))
  {
    if key != "Enter" {
      return None;
    }
    var built := BuildSelectorForField(o, root, focused);
    if built.Skipped? {
      return None;
    }
    rec := Some(Report(NodeAt(root, focused), Press, built.selector, Some(Meta(Some("Enter"), None)), now, url));
  }

  // ---------------------------------------------------------------- input debounce

  /** A call of `pushInteractionRaw(el, action)` made by the listeners. */
  datatype Push = Push(el: Path, action: Action)

  /** A pending debounce timeout: the element it will report and when it is due. */
  datatype Timer = Timer(el: Path, due: int)

  /** The debounce state: pending timeouts by field selector, and the reports
      handed to `pushInteractionRaw` so far. */
  datatype InputState = InputState(timers: map<string, Timer>, pushes: seq<Push>)

  /** `debounced(el)`: a skipped field is ignored; otherwise any pending
      timeout for its selector is replaced by a fresh one. */
  function Schedule(st: InputState, built: Built, el: Path, now: int): InputState {
    match built
    case Skipped(_) => st
    case Accepted(sel) => st.(timers := st.timers[sel := Timer(el, now + DebounceMs)])
  }

  /** `flushInput(el)`: a pending timeout for the field's selector is
      cancelled and reported at once. */
  function Flush(st: InputState, built: Built, el: Path): InputState {
    match built
    case Skipped(_) => st
    case Accepted(sel) =>
      if sel in st.timers then InputState(st.timers - {sel}, st.pushes + [Push(el, Input)])
      else st
  }

  /** A due timeout fires: it reports its element and forgets itself. */
  function Fire(st: InputState, sel: string): InputState
    requires sel in st.timers
  {
    InputState(st.timers - {sel}, st.pushes + [Push(st.timers[sel].el, Input)])
  }

  predicate IsTextEntry(tag: string) {
    tag == "input" || tag == "textarea"
  }

  /** The `input` listener. */
  function InputEvent(st: InputState, tag: string, built: Built, el: Path, now: int): InputState {
    if IsTextEntry(tag) then Schedule(st, built, el, now) else st
  }

  /** The `change` listener: flush, then report the change. */
  function ChangeEvent(st: InputState, tag: string, built: Built, el: Path): InputState {
    if IsTextEntry(tag) || tag == "select" then
      var f := Flush(st, built, el);
      f.(pushes := f.pushes + [Push(el, Change)])
    else st
  }

  /** The `blur` listener. */
  function BlurEvent(st: InputState, tag: string, built: Built, el: Path): InputState {
    if IsTextEntry(tag) then Flush(st, built, el) else st
  }

  /** A burst of typing in one field leaves a single timeout, for the last
      keystroke's element and due one quiet period after it; when it fires,
      exactly one input report is made. */
  lemma BurstReportsOnce(st: InputState, tag: string, sel: string, el1: Path, el2: Path, t1: int, t2: int)
    requires IsTextEntry(tag)
    ensures var s1 := InputEvent(st, tag, Accepted(sel), el1, t1);
      var s2 := InputEvent(s1, tag, Accepted(sel), el2, t2);
      && s2.timers == st.timers[sel := Timer(el2, t2 + DebounceMs)]
      && s2.pushes == st.pushes
      && Fire(s2, sel).pushes == st.pushes + [Push(el2, Input)]
      && sel !in Fire(s2, sel).timers
  {
  }

  /** A change on a field with typing still pending reports the input first
      and the change second, and leaves nothing pending for the field. */
  lemma ChangeFlushesPendingInput(st: InputState, tag: string, sel: string, el: Path)
    requires IsTextEntry(tag) || tag == "select"
    requires sel in st.timers
    ensures var r := ChangeEvent(st, tag, Accepted(sel), el);
      r.pushes == st.pushes + [Push(el, Input), Push(el, Change)] && sel !in r.timers
  {
  }

  /** Without pending typing, a change is reported alone. */
  lemma ChangeWithoutPendingInput(st: InputState, tag: string, built: Built, el: Path)
    requires IsTextEntry(tag) || tag == "select"
    requires built.Skipped? || built.selector !in st.timers
    ensures ChangeEvent(st, tag, built, el) == st.(pushes := st.pushes + [Push(el, Change)])
  {
  }

  /** Typed input is never dropped: a pending timeout is reported by its
      own firing, or earlier by a blur or a change, exactly once. */
  lemma PendingInputReportedOnce(st: InputState, tag: string, sel: string, el: Path)
    requires IsTextEntry(tag) && sel in st.timers
    ensures var b := BlurEvent(st, tag, Accepted(sel), el);
      && b.pushes == st.pushes + [Push(el, Input)]
      && sel !in b.timers
      && BlurEvent(b, tag, Accepted(sel), el) == b
  {
  }

  /** The listeners of the page script, over the debounce state. */
  class Listeners {
    var timers: map<string, Timer>
    var pushes: seq<Push>

    function State(): InputState
      reads this
    {
      InputState(timers, pushes)
    }

    constructor ()
      ensures timers == map[] && pushes == []
    {
      timers := map[];
      pushes := [];
    }

    /** The `click` listener (capture phase). */
    method OnClick(el: Path)
      modifies this`pushes
      ensures pushes == old(pushes) + [Push(el, Click)]
    {
      pushes := pushes + [Push(el, Click)];
    }

    /** `debounced(el)`. */
    method Debounced(o: Oracle, root: Element, el: Path, now: int)
      requires ValidPath(root, el)
      modifies this`timers
      ensures State() == Schedule(old(State()), ForField(o, root, el), el, now)
    {
      var built := BuildSelectorForField(o, root, el);
      if built.Skipped? {
        return;
      }
      timers := timers[built.selector := Timer(el, now + DebounceMs)];
    }

    /** `flushInput(el)`. */
    method FlushInput(o: Oracle, root: Element, el: Path)
      requires ValidPath(root, el)
      modifies this`timers, this`pushes
      ensures State() == Flush(old(State()), ForField(o, root, el), el)
    {
      var built := BuildSelectorForField(o, root, el);
      if built.Skipped? {
        return;
      }
      if built.selector in timers {
        timers := timers - {built.selector};
        pushes := pushes + [Push(el, Input)];
      }
    }

    /** The callback of a timeout that has come due. */
    method FireTimer(sel: string, now: int)
      requires sel in timers && timers[sel].due <= now
      modifies this`timers, this`pushes
      ensures State() == Fire(old(State()), sel)
    {
      pushes := pushes + [Push(timers[sel].el, Input)];
      timers := timers - {sel};
    }

    /** The `input` listener. */
    method OnInput(o: Oracle, root: Element, el: Path, now: int)
      requires ValidPath(root, el)
      modifies this`timers
      ensures State() == InputEvent(old(State()), Lower(NodeAt(root, el).tag), ForField(o, root, el), el, now)
    {
      var tag := Lower(NodeAt(root, el).tag);
      if IsTextEntry(tag) {
        Debounced(o, root, el, now);
      }
    }

    /** The `change` listener. */
    method OnChange(o: Oracle, root: Element, el: Path)
      requires ValidPath(root, el)
      modifies this`timers, this`pushes
      ensures State() == ChangeEvent(old(State()), Lower(NodeAt(root, el).tag), ForField(o, root, el), el)
    {
      var tag := Lower(NodeAt(root, el).tag);
      if IsTextEntry(tag) || tag == "select" {
        FlushInput(o, root, el);
        pushes := pushes + [Push(el, Change)];
      }
    }

    /** The `blur` listener. */
    method OnBlur(o: Oracle, root: Element, el: Path)
      requires ValidPath(root, el)
      modifies this`timers, this`pushes
      ensures State() == BlurEvent(old(State()), Lower(NodeAt(root, el).tag), ForField(o, root, el), el)
    {
      var tag := Lower(NodeAt(root, el).tag);
      if IsTextEntry(tag) {
        FlushInput(o, root, el);
      }
    }
  }
}
