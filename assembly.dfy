/**
 * Map assembly, run once when a recording stops (`stop` in
 * app/src/funcoes/mapear.js): a first pass infers the login descriptor, a
 * second pass turns interactions into de-duplicated steps, the last step
 * becomes the logout selector and, on a query map, the new last step becomes
 * the result anchor.
 *
 * The passes are methods with loops, as in the source; each is proved equal
 * to a specification function (`LoginScan`, `KeptSteps`, `AssembledMap`), and
 * the properties of the saved map are lemmas about those functions.
 */
module Assembly {
  import opened Wrappers
  import opened JsText
  import opened Interactions

  // ==================================================================
  // First pass: login inference
  // ==================================================================

  /** The `login` object while the first pass runs. A slot holds whatever
      selector was assigned to it, which may be `null` or empty; only a truthy
      slot counts as set. */
  datatype LoginSlots = LoginSlots(username: Option<string>, password: Option<string>, submit: Option<string>)

  const NoSlots := LoginSlots(None, None, None)

  /** `it.attrs?.type || ''` */
  function TypeOf(it: Interaction): string {
    it.attrs.typ.GetOr("")
  }

  predicate IsPasswordField(it: Interaction) {
    TypeOf(it) == "password"
  }

  predicate IsTextField(it: Interaction) {
    TypeOf(it) == "text" || TypeOf(it) == "email" || TypeOf(it) == "tel"
  }

  /** A click on a `button` element or on an element of type `submit`. */
  predicate IsSubmitClick(it: Interaction) {
    it.action == Click && (it.tagName == "button" || TypeOf(it) == "submit")
  }

  /** One iteration of the login loop. Each branch ends in `continue`, so an
      interaction fills at most one slot, and a slot that is already set is
      never overwritten. */
  function LoginStep(l: LoginSlots, it: Interaction): (r: LoginSlots)
    ensures (r.username == l.username && r.password == l.password)
         || (r.username == l.username && r.submit == l.submit)
         || (r.password == l.password && r.submit == l.submit)
    ensures Truthy(l.username) ==> r.username == l.username
    ensures Truthy(l.password) ==> r.password == l.password
    ensures Truthy(l.submit) ==> r.submit == l.submit
    ensures r.submit != l.submit ==> IsSubmitClick(it) && Truthy(l.username) && Truthy(l.password)
  {
    if IsPasswordField(it) && !Truthy(l.password) then
      l.(password := it.selector)
    else if IsTextField(it) && !Truthy(l.username) then
      l.(username := it.selector)
    else if IsSubmitClick(it) && Truthy(l.username) && Truthy(l.password) && !Truthy(l.submit) then
      l.(submit := it.selector)
    else
      l
  }

  /** The login slots after the first pass has read all of `log`. */
  function LoginScan(log: seq<Interaction>): LoginSlots {
    if log == [] then NoSlots else LoginStep(LoginScan(log[..|log| - 1]), log[|log| - 1])
  }

  /** The first pass (mapear.js:363-375). */
  method InferLogin(log: seq<Interaction>) returns (login: LoginSlots)
    ensures login == LoginScan(log)
  {
    login := NoSlots;
    for i := 0 to |log|
      invariant login == LoginScan(log[..i])
    {
      assert log[..i + 1][..i] == log[..i];
      var it := log[i];
      var typ := TypeOf(it);
      if typ == "password" && !Truthy(login.password) {
        login := login.(password := it.selector);
        continue;
      }
      if (typ == "text" || typ == "email" || typ == "tel") && !Truthy(login.username) {
        login := login.(username := it.selector);
        continue;
      }
      if it.action == Click && (it.tagName == "button" || typ == "submit")
        && Truthy(login.username) && Truthy(login.password) && !Truthy(login.submit)
      {
        login := login.(submit := it.selector);
        continue;
      }
    }
    assert log[..|log|] == log;
  }

  /** `(login.username && login.password && login.submit) ? login : {}` */
  function Descriptor(l: LoginSlots): (r: Login)
    ensures r.Login? <==> Truthy(l.username) && Truthy(l.password) && Truthy(l.submit)
    ensures r.Login? ==> Some(r.username) == l.username && Some(r.password) == l.password && Some(r.submit) == l.submit
  {
    if Truthy(l.username) && Truthy(l.password) && Truthy(l.submit) then
      Login(l.username.value, l.password.value, l.submit.value)
    else
      NoLogin
  }

  /** `new Set([login.username, login.password, login.submit].filter(Boolean))`,
      built from the slots whether or not the descriptor is complete. */
  function LoginSelectors(l: LoginSlots): (s: set<string>)
    ensures forall x :: x in s <==> x != "" && (Some(x) == l.username || Some(x) == l.password || Some(x) == l.submit)
  {
    (if Truthy(l.username) then {l.username.value} else {})
    + (if Truthy(l.password) then {l.password.value} else {})
    + (if Truthy(l.submit) then {l.submit.value} else {})
  }

  /** The two field slots, which fill in the same way. */
  datatype FieldSlot = UsernameSlot | PasswordSlot

  predicate Fills(it: Interaction, s: FieldSlot) {
    match s
    case UsernameSlot => IsTextField(it)
    case PasswordSlot => IsPasswordField(it)
  }

  function SlotValue(l: LoginSlots, s: FieldSlot): Option<string> {
    match s
    case UsernameSlot => l.username
    case PasswordSlot => l.password
  }

  /** An interaction that can set slot `s`: the right field type and a selector. */
  predicate FieldCandidate(it: Interaction, s: FieldSlot) {
    Fills(it, s) && Truthy(it.selector)
  }

  /** Interaction `j` is the first that can set slot `s`. */
  predicate FirstFieldCandidate(log: seq<Interaction>, j: nat, s: FieldSlot)
    requires j < |log|
  {
    FieldCandidate(log[j], s) && forall k :: 0 <= k < j ==> !FieldCandidate(log[k], s)
  }

  /** Username and password: first match wins. The slot ends up set exactly
      when some interaction of its field type has a selector, and then it holds
      the selector of the first such interaction. The username slot does not
      depend on whether a password was seen first. */
  lemma {:induction false} FirstFieldWins(log: seq<Interaction>, s: FieldSlot)
    ensures Truthy(SlotValue(LoginScan(log), s)) <==> exists j :: 0 <= j < |log| && FieldCandidate(log[j], s)
    ensures forall j :: 0 <= j < |log| && FirstFieldCandidate(log, j, s) ==> SlotValue(LoginScan(log), s) == log[j].selector
  {
    if log != [] {
      var n := |log|;
      var prev := log[..n - 1];
      FirstFieldWins(prev, s);
      assert forall j :: 0 <= j < n - 1 ==> prev[j] == log[j];
      var before := SlotValue(LoginScan(prev), s);
      if !Truthy(before) && FieldCandidate(log[n - 1], s) {
        assert SlotValue(LoginScan(log), s) == log[n - 1].selector;
      }
    }
  }

  /** Both credentials are set. */
  predicate HasCredentials(l: LoginSlots) {
    Truthy(l.username) && Truthy(l.password)
  }

  /** Interaction `j` is a submit click with a selector, seen once both
      credentials were already set. */
  predicate SubmitAt(log: seq<Interaction>, j: nat)
    requires j < |log|
  {
    IsSubmitClick(log[j]) && Truthy(log[j].selector) && HasCredentials(LoginScan(log[..j]))
  }

  predicate FirstSubmitAt(log: seq<Interaction>, j: nat)
    requires j < |log|
  {
    SubmitAt(log, j) && forall k :: 0 <= k < j ==> !SubmitAt(log, k)
  }

  /** `SubmitAt` looks only at the log up to its position. */
  lemma SubmitAtPrefix(log: seq<Interaction>, m: nat)
    requires m <= |log|
    ensures forall j :: 0 <= j < m ==> (SubmitAt(log[..m], j) <==> SubmitAt(log, j))
  {
    forall j | 0 <= j < m ensures SubmitAt(log[..m], j) <==> SubmitAt(log, j) {
      assert log[..m][..j] == log[..j];
    }
  }

  /** Submit: the slot ends up set exactly when some submit click with a
      selector comes after both credentials are set, and it holds the selector
      of the first such click. */
  lemma {:induction false} SubmitAfterCredentials(log: seq<Interaction>)
    ensures Truthy(LoginScan(log).submit) <==> exists j :: 0 <= j < |log| && SubmitAt(log, j)
    ensures forall j :: 0 <= j < |log| && FirstSubmitAt(log, j) ==> LoginScan(log).submit == log[j].selector
  {
    if log != [] {
      var n := |log|;
      var prev := log[..n - 1];
      SubmitAfterCredentials(prev);
      SubmitAtPrefix(log, n - 1);
      var before := LoginScan(prev);
      SubmitSlotStep(before, log[n - 1]);
      assert LoginScan(log).submit == LoginStep(before, log[n - 1]).submit;
      assert SubmitAt(log, n - 1) <==> IsSubmitClick(log[n - 1]) && Truthy(log[n - 1].selector) && HasCredentials(before);
      if Truthy(before.submit) {
        var k :| 0 <= k < n - 1 && SubmitAt(prev, k);
        assert SubmitAt(log, k);
      }
      if !Truthy(LoginScan(log).submit) {
        forall j | 0 <= j < n ensures !SubmitAt(log, j) {
          if j < n - 1 {
            assert !SubmitAt(prev, j);
          }
        }
      }
      forall j | 0 <= j < n && FirstSubmitAt(log, j) ensures LoginScan(log).submit == log[j].selector {
        if j < n - 1 {
          assert FirstSubmitAt(prev, j);
        }
      }
    }
  }

  /** One step of the first pass on the submit slot: once set it stays; it is
      set by a submit click with a selector once both credentials are set. */
  lemma SubmitSlotStep(l: LoginSlots, it: Interaction)
    ensures Truthy(l.submit) ==> LoginStep(l, it).submit == l.submit
    ensures !Truthy(l.submit) && IsSubmitClick(it) && HasCredentials(l) ==> LoginStep(l, it).submit == it.selector
    ensures !Truthy(l.submit) && !(IsSubmitClick(it) && Truthy(it.selector) && HasCredentials(l)) ==>
      !Truthy(LoginStep(l, it).submit)
  {
  }

  /** The descriptor is emitted exactly when a password field, a text-like
      field and, after both, a submit click were recorded with selectors. */
  lemma LoginDescriptorIff(log: seq<Interaction>)
    ensures Descriptor(LoginScan(log)).Login? <==>
      && (exists j :: 0 <= j < |log| && FieldCandidate(log[j], UsernameSlot))
      && (exists j :: 0 <= j < |log| && FieldCandidate(log[j], PasswordSlot))
      && (exists j :: 0 <= j < |log| && SubmitAt(log, j))
  {
    FirstFieldWins(log, UsernameSlot);
    FirstFieldWins(log, PasswordSlot);
    SubmitAfterCredentials(log);
  }

  // ==================================================================
  // Second pass: steps
  // ==================================================================

  /** The step action an interaction maps to, if any (mapear.js:390-404). */
  function ActOf(it: Interaction): Option<StepAction> {
    var typ := it.attrs.typ;
    if it.action == Download then Some(DownloadStep)
    else if it.action == Click then
      (if it.tagName == "input" && typ == Some("file") then Some(UploadStep) else Some(ClickStep))
    else if (it.tagName == "input" || it.tagName == "textarea") && (it.action == Input || it.action == Change) then
      (if typ == Some("file") then Some(UploadStep) else Some(FillStep))
    else if it.tagName == "select" && it.action == Change then Some(SelectStep)
    else if it.action == Press && it.meta.Some? && it.meta.value.key.Some?
      && Lower(it.meta.value.key.value) == "enter" then Some(PressStep)
    else None
  }

  /** The key of a fill or upload step: name, else placeholder, else id, else
      empty; lower-cased with all whitespace removed. */
  function FieldKey(a: Attrs): string {
    NormalizeKey(FirstTruthy(a.name, a.placeholder, a.id))
  }

  /** The `meta` of a non-download step (mapear.js:413-421, 437). It copies the
      interaction's own `meta` (`key`, `reqUrl`), and `expectedUrl` is read
      from that `meta`, not from the top-level `reqUrl` the host attaches. */
  function MetaOf(it: Interaction, act: StepAction): StepMeta {
    var m := it.meta.GetOr(Meta(None, None));
    StepMeta(
      key := if act == PressStep then Some("Enter") else m.key,
      reqUrl := m.reqUrl,
      role := if Truthy(it.attrs.role) then it.attrs.role else None,
      text := if Truthy(it.attrs.text) then it.attrs.text else None,
      networkTriggered := it.network,
      uploadDir := act == UploadStep,
      expectedUrl := if Truthy(m.reqUrl) then Some(BeforeQuery(m.reqUrl.value)) else None)
  }

  /** The step pushed for an interaction. A download step has exactly an action
      and a selector; fill and upload steps, and only they, carry a key. */
  function MakeStep(it: Interaction, act: StepAction): (r: Step)
    requires Truthy(it.selector)
    ensures r.action == act && r.selector == it.selector.value && !r.resultSelector
    ensures act == DownloadStep ==> r.key == None && r.meta == None
    ensures act != DownloadStep ==> r.meta == Some(MetaOf(it, act))
    ensures r.key.Some? <==> act == FillStep || act == UploadStep
    ensures r.key.Some? ==> r.key.value == FieldKey(it.attrs)
  {
    if act == DownloadStep then
      Step(DownloadStep, it.selector.value, None, None, false)
    else
      Step(act, it.selector.value,
           if act == FillStep || act == UploadStep then Some(FieldKey(it.attrs)) else None,
           Some(MetaOf(it, act)), false)
  }

  /** An interaction that reaches the de-duplication check: it has a selector
      outside the login selectors and maps to an action. */
  predicate Eligible(it: Interaction, loginSel: set<string>) {
    Truthy(it.selector) && it.selector.value !in loginSel && ActOf(it).Some?
  }

  /** The de-duplication key `${act}::${selector}`, as a pair. No action name is
      a prefix of another, so the string and the pair determine each other. */
  function KeyOf(it: Interaction): (StepAction, string)
    requires Truthy(it.selector) && ActOf(it).Some?
  {
    (ActOf(it).value, it.selector.value)
  }

  function StepKey(s: Step): (StepAction, string) {
    (s.action, s.selector)
  }

  /** Interaction `j` is the first in log order with its key. */
  predicate FirstOfKey(log: seq<Interaction>, j: nat, loginSel: set<string>)
    requires j < |log|
  {
    Eligible(log[j], loginSel)
    && forall k :: 0 <= k < j && Eligible(log[k], loginSel) ==> KeyOf(log[k]) != KeyOf(log[j])
  }

  /** Interaction `j` yields a step: it is the first with its key, and it is
      not a click on a selector that also produced a download. */
  predicate Kept(log: seq<Interaction>, j: nat, loginSel: set<string>, dl: set<string>)
    requires j < |log|
  {
    FirstOfKey(log, j, loginSel)
    && !(ActOf(log[j]) == Some(ClickStep) && log[j].selector.value in dl)
  }

  function StepOf(it: Interaction): Step
    requires Truthy(it.selector) && ActOf(it).Some?
  {
    MakeStep(it, ActOf(it).value)
  }

  /** The steps of the kept interactions among the first `n`, in log order. */
  function KeptSteps(log: seq<Interaction>, n: nat, loginSel: set<string>, dl: set<string>): seq<Step>
    requires n <= |log|
  {
    if n == 0 then []
    else KeptSteps(log, n - 1, loginSel, dl)
         + (if Kept(log, n - 1, loginSel, dl) then [StepOf(log[n - 1])] else [])
  }

  /** The keys added to `seen` while reading the first `n` interactions. */
  ghost function SeenKeys(log: seq<Interaction>, n: nat, loginSel: set<string>): set<(StepAction, string)>
    requires n <= |log|
  {
    set k | 0 <= k < n && Eligible(log[k], loginSel) :: KeyOf(log[k])
  }

  lemma SeenKeysNext(log: seq<Interaction>, n: nat, loginSel: set<string>)
    requires n < |log|
    ensures SeenKeys(log, n + 1, loginSel)
         == SeenKeys(log, n, loginSel) + (if Eligible(log[n], loginSel) then {KeyOf(log[n])} else {})
    ensures Eligible(log[n], loginSel) ==>
      (KeyOf(log[n]) !in SeenKeys(log, n, loginSel) <==> FirstOfKey(log, n, loginSel))
  {
    if Eligible(log[n], loginSel) && !FirstOfKey(log, n, loginSel) {
      var k :| 0 <= k < n && Eligible(log[k], loginSel) && KeyOf(log[k]) == KeyOf(log[n]);
      assert KeyOf(log[k]) in SeenKeys(log, n, loginSel);
    }
  }

  /** `new Set(interactions.filter(i => i.action === 'download' && i.selector).map(i => i.selector))` */
  function DownloadSelectors(log: seq<Interaction>): set<string> {
    set i | 0 <= i < |log| && log[i].action == Download && Truthy(log[i].selector) :: log[i].selector.value
  }

  /** The second pass (mapear.js:378-447). */
  method DeriveSteps(log: seq<Interaction>, loginSel: set<string>, dl: set<string>) returns (steps: seq<Step>)
    ensures steps == KeptSteps(log, |log|, loginSel, dl)
  {
    var seen: set<(StepAction, string)> := {};
    steps := [];
    for i := 0 to |log|
      invariant seen == SeenKeys(log, i, loginSel)
      invariant steps == KeptSteps(log, i, loginSel, dl)
    {
      SeenKeysNext(log, i, loginSel);
      var it := log[i];
      if !Truthy(it.selector) || it.selector.value in loginSel {
        continue;
      }
      var act := ActOf(it);
      if act.None? {
        continue;
      }
      var keyAttr := FieldKey(it.attrs);
      var k := (act.value, it.selector.value);
      if k in seen {
        continue;
      }
      seen := seen + {k};
      var meta := MetaOf(it, act.value);
      if act.value == DownloadStep {
        steps := steps + [Step(DownloadStep, it.selector.value, None, None, false)];
        continue;
      }
      if act.value == ClickStep && it.selector.value in dl {
        continue;
      }
      var key := if act.value == FillStep || act.value == UploadStep then Some(keyAttr) else None;
      steps := steps + [Step(act.value, it.selector.value, key, Some(meta), false)];
    }
  }

  /** The positions of the kept interactions among the first `n`, in order. */
  ghost function KeptIndices(log: seq<Interaction>, n: nat, loginSel: set<string>, dl: set<string>): seq<nat>
    requires n <= |log|
  {
    if n == 0 then []
    else KeptIndices(log, n - 1, loginSel, dl) + (if Kept(log, n - 1, loginSel, dl) then [n - 1] else [])
  }

  /** Step `t` is the step of the `t`-th kept interaction: steps appear in log
      order, one per kept interaction. */
  lemma {:induction false} KeptStepsOrigin(log: seq<Interaction>, n: nat, loginSel: set<string>, dl: set<string>)
    requires n <= |log|
    ensures var steps, idx := KeptSteps(log, n, loginSel, dl), KeptIndices(log, n, loginSel, dl);
      && |idx| == |steps|
      && (forall t :: 0 <= t < |idx| ==> idx[t] < n && Kept(log, idx[t], loginSel, dl) && steps[t] == StepOf(log[idx[t]]))
      && (forall t, u :: 0 <= t < u < |idx| ==> idx[t] < idx[u])
  {
    if n > 0 {
      KeptStepsOrigin(log, n - 1, loginSel, dl);
    }
  }

  /** Every kept interaction among the first `n` yields its step. */
  lemma {:induction false} KeptStepsComplete(log: seq<Interaction>, n: nat, loginSel: set<string>, dl: set<string>)
    requires n <= |log|
    ensures forall j :: 0 <= j < n && Kept(log, j, loginSel, dl) ==> StepOf(log[j]) in KeptSteps(log, n, loginSel, dl)
  {
    if n > 0 {
      KeptStepsComplete(log, n - 1, loginSel, dl);
    }
  }

  /** No two steps share an `action::selector` key. */
  lemma {:induction false} KeptStepsDistinct(log: seq<Interaction>, n: nat, loginSel: set<string>, dl: set<string>)
    requires n <= |log|
    ensures var steps := KeptSteps(log, n, loginSel, dl);
      forall a, b :: 0 <= a < b < |steps| ==> StepKey(steps[a]) != StepKey(steps[b])
  {
    if n > 0 {
      KeptStepsDistinct(log, n - 1, loginSel, dl);
      KeptStepsOrigin(log, n - 1, loginSel, dl);
      var prev := KeptSteps(log, n - 1, loginSel, dl);
      var idx := KeptIndices(log, n - 1, loginSel, dl);
      if Kept(log, n - 1, loginSel, dl) {
        var steps := KeptSteps(log, n, loginSel, dl);
        forall a | 0 <= a < |prev| ensures StepKey(steps[a]) != StepKey(steps[|prev|]) {
          var j := idx[a];
          assert StepKey(prev[a]) == KeyOf(log[j]);
          assert steps[a] == prev[a];
        }
        assert forall a, b :: 0 <= a < b < |prev| ==> steps[a] == prev[a] && steps[b] == prev[b];
      }
    }
  }

  // ==================================================================
  // The saved map
  // ==================================================================

  /** `steps.pop().selector` on an empty list throws a TypeError. */
  datatype StopError = NoStepToPop

  /** On a query map the last remaining step is tagged as the result anchor. */
  function MarkResult(steps: seq<Step>, operation: Option<string>): seq<Step> {
    if operation == Some("consultar") && |steps| > 0 then
      steps[..|steps| - 1] + [steps[|steps| - 1].(resultSelector := true)]
    else
      steps
  }

  /** The steps of a whole log, before the logout step is popped. */
  function AllSteps(log: seq<Interaction>): seq<Step> {
    KeptSteps(log, |log|, LoginSelectors(LoginScan(log)), DownloadSelectors(log))
  }

  /** The map `stop` writes, or the error it throws. */
  function AssembledMap(log: seq<Interaction>, operation: Option<string>, category: Option<string>): Result<MapDoc, StopError> {
    var slots := LoginScan(log);
    var all := AllSteps(log);
    if all == [] then Err(NoStepToPop)
    else
      var logout := all[|all| - 1].selector;
      Ok(MapDoc(
        if Truthy(operation) then operation else None,
        if Truthy(category) then category else None,
        Descriptor(slots),
        MarkResult(all[..|all| - 1], operation),
        if logout != "" then Some(logout) else None))
  }

  /** Map assembly (mapear.js:362-464). */
  method Assemble(log: seq<Interaction>, operation: Option<string>, category: Option<string>)
    returns (r: Result<MapDoc, StopError>)
    ensures r == AssembledMap(log, operation, category)
  {
    var login := InferLogin(log);
    var loginSel := LoginSelectors(login);
    var downloadSelectors := DownloadSelectors(log);
    var steps := DeriveSteps(log, loginSel, downloadSelectors);
    if |steps| == 0 {
      return Err(NoStepToPop);
    }
    var logoutSelector := steps[|steps| - 1].selector;
    steps := steps[..|steps| - 1];
    if operation == Some("consultar") && |steps| > 0 {
      var last := steps[|steps| - 1];
      steps := steps[..|steps| - 1] + [last.(resultSelector := true)];
    }
    r := Ok(MapDoc(
      if Truthy(operation) then operation else None,
      if Truthy(category) then category else None,
      Descriptor(login),
      steps,
      if logoutSelector != "" then Some(logoutSelector) else None));
  }

  // ==================================================================
  // Properties of the saved map
  // ==================================================================

  /** Tagging the result anchor changes only the flag of the last step. */
  lemma MarkResultShape(steps: seq<Step>, operation: Option<string>)
    ensures |MarkResult(steps, operation)| == |steps|
    ensures forall t :: 0 <= t < |steps| ==>
      MarkResult(steps, operation)[t]
        == steps[t].(resultSelector := steps[t].resultSelector || (operation == Some("consultar") && t == |steps| - 1))
  {
  }

  /** No interaction of the log yields a step. */
  predicate NothingKept(log: seq<Interaction>) {
    forall j :: 0 <= j < |log| ==> !Kept(log, j, LoginSelectors(LoginScan(log)), DownloadSelectors(log))
  }

  /** `stop` fails on the pop exactly when no interaction yields a step. */
  lemma AssemblyFailsIffNothingKept(log: seq<Interaction>, operation: Option<string>, category: Option<string>)
    ensures AssembledMap(log, operation, category).Err? <==> NothingKept(log)
  {
    var loginSel, dl := LoginSelectors(LoginScan(log)), DownloadSelectors(log);
    KeptStepsOrigin(log, |log|, loginSel, dl);
    KeptStepsComplete(log, |log|, loginSel, dl);
    var idx := KeptIndices(log, |log|, loginSel, dl);
    if AllSteps(log) != [] {
      assert Kept(log, idx[0], loginSel, dl);
    }
  }

  /** The logout selector is the selector of the last step the log yields;
      that step is removed, and the other steps are kept in order, changed at
      most by the result-anchor flag, which only the last step of a query map
      carries. */
  lemma LogoutIsLastStep(log: seq<Interaction>, operation: Option<string>, category: Option<string>)
    requires AssembledMap(log, operation, category).Ok?
    ensures var m, all := AssembledMap(log, operation, category).value, AllSteps(log);
      && |all| == |m.steps| + 1
      && m.logout == Some(all[|m.steps|].selector)
      && (forall t :: 0 <= t < |m.steps| ==> m.steps[t].(resultSelector := false) == all[t])
      && (forall t :: 0 <= t < |m.steps| ==>
            (m.steps[t].resultSelector <==> operation == Some("consultar") && t == |m.steps| - 1))
  {
    var all := AllSteps(log);
    var loginSel, dl := LoginSelectors(LoginScan(log)), DownloadSelectors(log);
    KeptStepsOrigin(log, |log|, loginSel, dl);
    var idx := KeptIndices(log, |log|, loginSel, dl);
    assert forall t :: 0 <= t < |all| ==> !all[t].resultSelector;
    var m := AssembledMap(log, operation, category).value;
    assert m.steps == MarkResult(all[..|all| - 1], operation);
    MarkResultShape(all[..|all| - 1], operation);
  }

  /** Every saved step, and the logout selector, has a non-empty selector
      outside the login selectors; no two steps share an `action::selector`
      key, and each is the step of the first interaction with that key; no
      click step shares its selector with a download in the log. */
  lemma SavedStepsWellFormed(log: seq<Interaction>, operation: Option<string>, category: Option<string>)
    requires AssembledMap(log, operation, category).Ok?
    ensures var m := AssembledMap(log, operation, category).value;
      var loginSel, dl := LoginSelectors(LoginScan(log)), DownloadSelectors(log);
      var idx := KeptIndices(log, |log|, loginSel, dl);
      && |idx| == |m.steps| + 1
      && (forall t :: 0 <= t < |m.steps| ==>
            && idx[t] < |log| && FirstOfKey(log, idx[t], loginSel)
            && m.steps[t].(resultSelector := false) == StepOf(log[idx[t]])
            && m.steps[t].selector != "" && m.steps[t].selector !in loginSel)
      && (forall a, b :: 0 <= a < b < |m.steps| ==> StepKey(m.steps[a]) != StepKey(m.steps[b]))
      && (forall t, i ::
            (0 <= t < |m.steps| && 0 <= i < |log| && log[i].action == Download
             && log[i].selector == Some(m.steps[t].selector)) ==> m.steps[t].action != ClickStep)
      && m.logout.Some? && m.logout.value != "" && m.logout.value !in loginSel
  {
    var m := AssembledMap(log, operation, category).value;
    var all := AllSteps(log);
    var loginSel, dl := LoginSelectors(LoginScan(log)), DownloadSelectors(log);
    KeptStepsOrigin(log, |log|, loginSel, dl);
    KeptStepsDistinct(log, |log|, loginSel, dl);
    LogoutIsLastStep(log, operation, category);
    var idx := KeptIndices(log, |log|, loginSel, dl);
    assert Kept(log, idx[|m.steps|], loginSel, dl);
    forall a, b | 0 <= a < b < |m.steps| ensures StepKey(m.steps[a]) != StepKey(m.steps[b]) {
      assert StepKey(m.steps[a]) == StepKey(all[a]) && StepKey(m.steps[b]) == StepKey(all[b]);
    }
    forall t, i | 0 <= t < |m.steps| && 0 <= i < |log| && log[i].action == Download
        && log[i].selector == Some(m.steps[t].selector)
      ensures m.steps[t].action != ClickStep
    {
      assert Kept(log, idx[t], loginSel, dl);
      assert m.steps[t].selector in dl;
    }
  }

  /** Several downloads with one selector leave one download step. */
  lemma RepeatedDownloadsCollapse(log: seq<Interaction>, operation: Option<string>, category: Option<string>)
    requires AssembledMap(log, operation, category).Ok?
    ensures var m := AssembledMap(log, operation, category).value;
      forall a, b ::
        (0 <= a < |m.steps| && 0 <= b < |m.steps|
         && m.steps[a].action == DownloadStep && m.steps[b].action == DownloadStep
         && m.steps[a].selector == m.steps[b].selector) ==> a == b
  {
    SavedStepsWellFormed(log, operation, category);
  }

  /** `expectedUrl` is read from the interaction's `meta.reqUrl`; when no
      interaction carries one there (the host binding stores the request URL
      at the top level instead), no step gets an `expectedUrl`, whatever the
      top-level `reqUrl` fields hold. */
  lemma ExpectedUrlOnlyFromMeta(log: seq<Interaction>)
    requires forall i :: 0 <= i < |log| ==> log[i].meta.None? || log[i].meta.value.reqUrl.None?
    ensures forall t :: 0 <= t < |AllSteps(log)| ==>
      AllSteps(log)[t].meta.None? || AllSteps(log)[t].meta.value.expectedUrl.None?
  {
    var loginSel, dl := LoginSelectors(LoginScan(log)), DownloadSelectors(log);
    KeptStepsOrigin(log, |log|, loginSel, dl);
  }
}
