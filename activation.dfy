/**
 * What activating a batch of hotfix dictionaries does, as functions of the
 * manager's state: the list of active hotfixes and the method table. A
 * hotfix installed while n hotfixes are active is exchanged with the
 * placeholder method `hotfixPlaceholder<n>` and appended at index n, and
 * placeholder n answers with the value of the hotfix at index n.
 */
module Activation {
  import opened Wrappers
  import opened Descriptor
  import opened MethodTable

  /** The placeholders defined on every object: hotfixPlaceholder0 to hotfixPlaceholder2. */
  const PlaceholderCount: nat := 3

  function DigitChar(d: nat): char
    requires d < 10
  {
    ('0' as int + d) as char
  }

  /** Decimal notation of a count, as string interpolation writes it. */
  function NatToString(n: nat): (r: string)
    ensures |r| > 0
    ensures n < 10 <==> |r| == 1
    ensures forall i | 0 <= i < |r| :: '0' <= r[i] <= '9'
    ensures r[0] == '0' ==> n == 0
  {
    if n < 10 then [DigitChar(n)] else NatToString(n / 10) + [DigitChar(n % 10)]
  }

  /** Distinct counts are written differently. */
  lemma {:induction false} NatToStringInjective(a: nat, b: nat)
    requires NatToString(a) == NatToString(b)
    ensures a == b
  {
    if a >= 10 && b >= 10 {
      var sa, sb := NatToString(a), NatToString(b);
      assert sa[|sa| - 1] == DigitChar(a % 10) && sb[|sb| - 1] == DigitChar(b % 10);
      assert sa[..|sa| - 1] == NatToString(a / 10);
      assert sb[..|sb| - 1] == NatToString(b / 10);
      NatToStringInjective(a / 10, b / 10);
    }
  }

  /** The selector of placeholder `slot`: the fixed prefix, then the slot in decimal. */
  function PlaceholderSelector(slot: nat): (r: string)
    ensures |r| > |"hotfixPlaceholder"|
    ensures r[..|"hotfixPlaceholder"|] == "hotfixPlaceholder"
    ensures r[|"hotfixPlaceholder"|..] == NatToString(slot)
  {
    "hotfixPlaceholder" + NatToString(slot)
  }

  /** Each slot has its own placeholder selector. */
  lemma PlaceholderSelectorInjective(i: nat, j: nat)
    requires PlaceholderSelector(i) == PlaceholderSelector(j)
    ensures i == j
  {
    NatToStringInjective(i, j);
  }

  /** No method in the table is a placeholder numbered `bound` or higher. */
  ghost predicate PlaceholdersBelow(t: Table, bound: nat)
  {
    forall k | k in t :: forall slot: nat | slot >= bound :: k.selector != PlaceholderSelector(slot)
  }

  /** The manager's state: the active hotfixes in activation order, and the method table. */
  datatype State = State(active: seq<Hotfix>, methods: Table)

  /** The state after some processing, and whether the process trapped on the way. */
  datatype Step = Step(state: State, trapped: bool)

  /** What installing one hotfix does. */
  datatype Install =
    | Swapped         // both methods found and exchanged
    | MethodNotFound  // one of the two methods does not exist; nothing exchanged
    | SelectorNil     // the hotfix has no selector: force-unwrapping it traps

  /** The method the hotfix replaces. */
  function OriginalKey(h: Hotfix): (r: MethodKey)
    requires h.selector.Some?
    ensures r.cls == h.targetClass && r.selector == h.selector.value && r.kind == h.methodType
  {
    MethodKey(h.targetClass, h.selector.value, h.methodType)
  }

  /** The placeholder method the hotfix is exchanged with when it takes slot `slot`. */
  function ReplacementKey(h: Hotfix, slot: nat): (r: MethodKey)
    ensures r.cls == h.targetClass && r.kind == h.methodType
    ensures r.selector == PlaceholderSelector(slot)
    ensures h.selector.Some? && h.selector.value != PlaceholderSelector(slot) ==> r != OriginalKey(h)
  {
    match h.replacementSelector
    case ReturnObject => MethodKey(h.targetClass, PlaceholderSelector(slot), h.methodType)
  }

  /** Installing `h` at `slot`: both methods must exist for the exchange to happen. */
  function InstallOutcome(t: Table, h: Hotfix, slot: nat): (r: Install)
    ensures r == Swapped <==>
      h.selector.Some? && OriginalKey(h) in t && ReplacementKey(h, slot) in t
    ensures r == SelectorNil <==> h.selector.None?
  {
    if h.selector.None? then SelectorNil
    else if OriginalKey(h) in t && ReplacementKey(h, slot) in t then Swapped
    else MethodNotFound
  }

  /** A dictionary that parses into a hotfix applicable to `env`. */
  predicate Admitted(d: Dict, env: Env, classes: ClassRegistry)
  {
    Parse(d, classes).Ok? && Applies(Parse(d, classes).value, env)
  }

  /** A dictionary that is admitted and whose install in state `s` finds both methods. */
  predicate Installable(s: State, d: Dict, env: Env, classes: ClassRegistry)
  {
    Admitted(d, env, classes) &&
    InstallOutcome(s.methods, Parse(d, classes).value, |s.active|) == Swapped
  }

  /**
   * One item of a batch: parse, filter, install in the next slot, append.
   * An item that fails any step changes nothing; an admitted hotfix without
   * a selector traps.
   */
  function ActivateOne(s: State, d: Dict, env: Env, classes: ClassRegistry): (r: Step)
    ensures r.trapped <==> Admitted(d, env, classes) && Parse(d, classes).value.selector.None?
    ensures !Installable(s, d, env, classes) ==> r.state == s
    ensures Installable(s, d, env, classes) ==>
      var h := Parse(d, classes).value;
      && !r.trapped
      && r.state.active == s.active + [h]
      && r.state.methods == Exchange(s.methods, OriginalKey(h), ReplacementKey(h, |s.active|))
  {
    match Parse(d, classes)
    case Err(_) => Step(s, false)
    case Ok(h) =>
      if !Applies(h, env) then Step(s, false)
      else
        var slot := |s.active|;
        match InstallOutcome(s.methods, h, slot)
        case SelectorNil => Step(s, true)
        case MethodNotFound => Step(s, false)
        case Swapped =>
          Step(State(s.active + [h], Exchange(s.methods, OriginalKey(h), ReplacementKey(h, slot))), false)
  }

  /**
   * A batch, item by item in order; a trap ends the process, so the items
   * after it are never processed.
   */
  function ActivateAll(s: State, ds: seq<Dict>, env: Env, classes: ClassRegistry): (r: Step)
    ensures s.active <= r.state.active
    ensures |r.state.active| <= |s.active| + |ds|
    ensures r.state.methods.Keys == s.methods.Keys
    ensures forall i | |s.active| <= i < |r.state.active| ::
      exists d | d in ds :: Parse(d, classes) == Ok(r.state.active[i]) && Applies(r.state.active[i], env)
    decreases |ds|
  {
    if ds == [] then Step(s, false)
    else
      var r1 := ActivateOne(s, ds[0], env, classes);
      if r1.trapped then r1
      else
        var r := ActivateAll(r1.state, ds[1..], env, classes);
        assert forall d | d in ds[1..] :: d in ds;
        r
  }

  /** Processing a batch is processing its first part, then the rest from where it left off. */
  lemma {:induction false} ActivateAllAppend(s: State, ds1: seq<Dict>, ds2: seq<Dict>, env: Env, classes: ClassRegistry)
    ensures var r1 := ActivateAll(s, ds1, env, classes);
      ActivateAll(s, ds1 + ds2, env, classes) ==
        if r1.trapped then r1 else ActivateAll(r1.state, ds2, env, classes)
    decreases |ds1|
  {
    if ds1 != [] {
      assert (ds1 + ds2)[0] == ds1[0];
      assert (ds1 + ds2)[1..] == ds1[1..] + ds2;
      var r0 := ActivateOne(s, ds1[0], env, classes);
      if !r0.trapped {
        ActivateAllAppend(r0.state, ds1[1..], ds2, env, classes);
      }
    } else {
      assert ds1 + ds2 == ds2;
    }
  }

  /**
   * An item that does not parse or does not apply has no effect: removing it
   * from a batch changes neither the active list nor the method table.
   */
  lemma RejectedItemIsInert(s: State, ds1: seq<Dict>, d: Dict, ds2: seq<Dict>, env: Env, classes: ClassRegistry)
    requires !Admitted(d, env, classes)
    ensures ActivateAll(s, ds1 + [d] + ds2, env, classes) == ActivateAll(s, ds1 + ds2, env, classes)
  {
    ActivateAllAppend(s, ds1, [d] + ds2, env, classes);
    ActivateAllAppend(s, ds1, ds2, env, classes);
    assert ds1 + [d] + ds2 == ds1 + ([d] + ds2);
    var r1 := ActivateAll(s, ds1, env, classes);
    if !r1.trapped {
      assert ([d] + ds2)[0] == d && ([d] + ds2)[1..] == ds2;
    }
  }

  /**
   * With n hotfixes active, a successful install appends the hotfix at index
   * n, redirects the original method to what placeholder n ran, and leaves
   * every other method and every earlier slot as it was.
   */
  lemma InstalledAtNextSlot(s: State, d: Dict, env: Env, classes: ClassRegistry)
    requires Installable(s, d, env, classes)
    ensures var h, n, r := Parse(d, classes).value, |s.active|, ActivateOne(s, d, env, classes);
      && |r.state.active| == n + 1 && r.state.active[n] == h
      && r.state.active[..n] == s.active
      && r.state.methods[OriginalKey(h)] == s.methods[ReplacementKey(h, n)]
      && r.state.methods[ReplacementKey(h, n)] == s.methods[OriginalKey(h)]
      && (forall k | k in s.methods && k != OriginalKey(h) && k != ReplacementKey(h, n) ::
            r.state.methods[k] == s.methods[k])
  {
    var r := ActivateOne(s, d, env, classes);
    assert r.state.active[..|s.active|] == s.active;
  }

  /**
   * Once PlaceholderCount hotfixes are active and the table has no further
   * placeholders, every item fails at the exchange step: nothing changes.
   */
  lemma SlotsExhausted(s: State, d: Dict, env: Env, classes: ClassRegistry)
    requires PlaceholdersBelow(s.methods, PlaceholderCount)
    requires |s.active| >= PlaceholderCount
    ensures ActivateOne(s, d, env, classes).state == s
  {
    if Admitted(d, env, classes) {
      var h := Parse(d, classes).value;
      var k := ReplacementKey(h, |s.active|);
      assert k.selector == PlaceholderSelector(|s.active|);
      assert k !in s.methods;
    }
  }

  /**
   * Without placeholders beyond PlaceholderCount, a batch never makes more
   * than PlaceholderCount hotfixes active.
   */
  lemma {:induction false} ActivateAllBounded(s: State, ds: seq<Dict>, env: Env, classes: ClassRegistry)
    requires PlaceholdersBelow(s.methods, PlaceholderCount)
    requires |s.active| <= PlaceholderCount
    ensures |ActivateAll(s, ds, env, classes).state.active| <= PlaceholderCount
    decreases |ds|
  {
    if ds != [] {
      var r1 := ActivateOne(s, ds[0], env, classes);
      if |s.active| == PlaceholderCount {
        SlotsExhausted(s, ds[0], env, classes);
      }
      assert r1.state.methods.Keys == s.methods.Keys;
      assert PlaceholdersBelow(r1.state.methods, PlaceholderCount);
      if !r1.trapped {
        ActivateAllBounded(r1.state, ds[1..], env, classes);
      }
    }
  }

  /** What a call of a method returns, or how it traps. */
  datatype CallOutcome =
    | Returned(value: Option<Value>)  // a placeholder's answer (none when no value was configured)
    | RanNative(id: nat)              // the host's own implementation ran
    | IndexOutOfRange                 // a placeholder read past the end of the active list
    | UnrecognizedSelector            // no such method

  /** The answer of placeholder `index`: the value of the hotfix at that index of the active list. */
  function PerformAt(active: seq<Hotfix>, index: int): (r: CallOutcome)
    ensures r.Returned? <==> 0 <= index < |active|
    ensures r.Returned? ==> r.value == active[index].replacementReturnValue
    ensures !r.Returned? ==> r == IndexOutOfRange
  {
    if 0 <= index < |active| then Returned(active[index].replacementReturnValue) else IndexOutOfRange
  }

  /** Calling a method: whichever implementation the table holds for it runs. */
  function Invoke(s: State, key: MethodKey): CallOutcome
  {
    if key !in s.methods then UnrecognizedSelector
    else match s.methods[key]
      case Native(id) => RanNative(id)
      case PlaceholderBody(slot) => PerformAt(s.active, slot)
  }

  /**
   * End to end: when placeholder n still runs its own body, installing a
   * hotfix at slot n makes calls of the original method answer with the
   * hotfix's configured value.
   */
  lemma InstalledMethodAnswersWithValue(s: State, d: Dict, env: Env, classes: ClassRegistry)
    requires Installable(s, d, env, classes)
    requires var h := Parse(d, classes).value;
      s.methods[ReplacementKey(h, |s.active|)] == PlaceholderBody(|s.active|)
    ensures var h := Parse(d, classes).value;
      Invoke(ActivateOne(s, d, env, classes).state, OriginalKey(h)) == Returned(h.replacementReturnValue)
  {
    InstalledAtNextSlot(s, d, env, classes);
  }

  /** Deactivation: the active list is emptied; the method table is left as it is. */
  function Teardown(s: State): (r: State)
    ensures r.active == [] && r.methods == s.methods
  {
    State([], s.methods)
  }

  /**
   * Deactivation does not undo exchanges: a method still redirected to a
   * placeholder now reads past the end of the emptied list.
   */
  lemma RedirectedCallAfterTeardownTraps(s: State, key: MethodKey, slot: nat)
    requires key in s.methods && s.methods[key] == PlaceholderBody(slot)
    ensures Invoke(Teardown(s), key) == IndexOutOfRange
  {
  }

  /**
   * Since deactivation frees slot 0 without undoing the exchange, installing
   * the same hotfix again at slot 0 exchanges the same two methods back:
   * the table returns to what it was before the first install.
   */
  lemma ReinstallAfterTeardownRestoresTable(s: State, d: Dict, env: Env, classes: ClassRegistry)
    requires s.active == []
    requires Installable(s, d, env, classes)
    ensures var s1 := Teardown(ActivateOne(s, d, env, classes).state);
      && Installable(s1, d, env, classes)
      && ActivateOne(s1, d, env, classes).state == State([Parse(d, classes).value], s.methods)
  {
    var h := Parse(d, classes).value;
    var s1 := Teardown(ActivateOne(s, d, env, classes).state);
    assert s1.methods.Keys == s.methods.Keys;
    ExchangeTwiceRestores(s.methods, OriginalKey(h), ReplacementKey(h, 0));
  }
}
