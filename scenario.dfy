/**
 * The activation test of the HotfixKit test suite, stated over the model:
 * two hotfixes for Foo.bar and NSDictionary.description, activated in an
 * environment with app version 1.0 and OS version 8.1.
 */
module Scenario {
  import opened Wrappers
  import opened Descriptor
  import opened MethodTable
  import opened Activation
  import opened Manager

  const Foo: ClassHandle := 1
  const NSDictionary: ClassHandle := 2
  const Classes: ClassRegistry := map["HotfixKitTests.Foo" := Foo, "NSDictionary" := NSDictionary]

  const FooBar := MethodKey(Foo, "bar", Instance)
  const DictionaryDescription := MethodKey(NSDictionary, "description", Instance)

  function PlaceholderKey(cls: ClassHandle, selector: string): MethodKey
  {
    MethodKey(cls, selector, Instance)
  }

  /** The three placeholder selectors, as spelled in the source. */
  lemma PlaceholderSpelling()
    ensures PlaceholderSelector(0) == "hotfixPlaceholder0"
    ensures PlaceholderSelector(1) == "hotfixPlaceholder1"
    ensures PlaceholderSelector(2) == "hotfixPlaceholder2"
  {
  }

  /** Both classes answer bar/description natively and inherit the three placeholders. */
  const HostMethods: Table := map[
    FooBar := Native(0), DictionaryDescription := Native(1),
    PlaceholderKey(Foo, "hotfixPlaceholder0") := PlaceholderBody(0),
    PlaceholderKey(Foo, "hotfixPlaceholder1") := PlaceholderBody(1),
    PlaceholderKey(Foo, "hotfixPlaceholder2") := PlaceholderBody(2),
    PlaceholderKey(NSDictionary, "hotfixPlaceholder0") := PlaceholderBody(0),
    PlaceholderKey(NSDictionary, "hotfixPlaceholder1") := PlaceholderBody(1),
    PlaceholderKey(NSDictionary, "hotfixPlaceholder2") := PlaceholderBody(2)]

  const TestEnv := Env("1.0", "8.1", Phone)

  function TestHotfix(className: string, selector: string, value: string): Dict
  {
    map[AppVersionKey := Str("1.0"), OSVersionKey := Str("8.1"), ClassKey := Str(className),
        MethodTypeKey := Str("instance"), SelectorKey := Str(selector),
        ReplacementSelectorKey := Str("return-object"), ReplacementReturnValueKey := Str(value)]
  }

  const FooHotfix := TestHotfix("HotfixKitTests.Foo", "bar", "hotfix0")
  const DictionaryHotfix := TestHotfix("NSDictionary", "description", "hotfix1")

  const FooFix := Hotfix(Some("1.0"), Some("8.1"), None, Foo, Some("bar"), Instance, ReturnObject, Some(Str("hotfix0")))
  const DictionaryFix := Hotfix(Some("1.0"), Some("8.1"), None, NSDictionary, Some("description"), Instance, ReturnObject, Some(Str("hotfix1")))

  /** Both test dictionaries parse, keep their return values, and apply in the test environment. */
  lemma TestHotfixesParse()
    ensures Parse(FooHotfix, Classes) == Ok(FooFix) && Applies(FooFix, TestEnv)
    ensures Parse(DictionaryHotfix, Classes) == Ok(DictionaryFix) && Applies(DictionaryFix, TestEnv)
  {
  }

  /** The table after foo.bar is exchanged with placeholder 0. */
  function AfterFoo(): Table
  {
    HostMethods[FooBar := PlaceholderBody(0)][PlaceholderKey(Foo, "hotfixPlaceholder0") := Native(0)]
  }

  /** The table after the dictionary's description is also exchanged with placeholder 1. */
  function AfterBoth(): Table
  {
    AfterFoo()[DictionaryDescription := PlaceholderBody(1)][PlaceholderKey(NSDictionary, "hotfixPlaceholder1") := Native(1)]
  }

  /** The first test hotfix takes slot 0. */
  lemma FooHotfixTakesSlotZero(d: Dict)
    requires Parse(d, Classes) == Ok(FooFix)
    ensures ActivateOne(State([], HostMethods), d, TestEnv, Classes) == Step(State([FooFix], AfterFoo()), false)
  {
    PlaceholderSpelling();
    var s0 := State([], HostMethods);
    assert ReplacementKey(FooFix, 0) == PlaceholderKey(Foo, "hotfixPlaceholder0");
    assert Installable(s0, d, TestEnv, Classes);
  }

  /** The second test hotfix takes slot 1; foo.bar stays redirected to slot 0. */
  lemma DictionaryHotfixTakesSlotOne(d: Dict)
    requires Parse(d, Classes) == Ok(DictionaryFix)
    ensures ActivateOne(State([FooFix], AfterFoo()), d, TestEnv, Classes)
         == Step(State([FooFix, DictionaryFix], AfterBoth()), false)
  {
    PlaceholderSpelling();
    var s1 := State([FooFix], AfterFoo());
    assert ReplacementKey(DictionaryFix, 1) == PlaceholderKey(NSDictionary, "hotfixPlaceholder1");
    assert Installable(s1, d, TestEnv, Classes);
  }

  /** The test batch is the two single steps, one after the other. */
  lemma TestBatchIsTwoSteps(d1: Dict, d2: Dict)
    requires Parse(d1, Classes) == Ok(FooFix) && Parse(d2, Classes) == Ok(DictionaryFix)
    ensures ActivateAll(State([], HostMethods), [d1, d2], TestEnv, Classes)
         == Step(State([FooFix, DictionaryFix], AfterBoth()), false)
  {
    FooHotfixTakesSlotZero(d1);
    DictionaryHotfixTakesSlotOne(d2);
    var both := State([FooFix, DictionaryFix], AfterBoth());
    assert ActivateAll(both, [], TestEnv, Classes) == Step(both, false);
    assert [d2][1..] == [];
    assert ActivateAll(State([FooFix], AfterFoo()), [d2], TestEnv, Classes) == Step(both, false);
    assert [d1, d2][1..] == [d2];
  }

  /** What foo.bar and the dictionary's description answer once both test hotfixes
      are active, and what foo.bar does once the list has been emptied. */
  lemma TestAnswers()
    ensures Invoke(State([FooFix, DictionaryFix], AfterBoth()), FooBar) == Returned(Some(Str("hotfix0")))
    ensures Invoke(State([FooFix, DictionaryFix], AfterBoth()), DictionaryDescription) == Returned(Some(Str("hotfix1")))
    ensures Invoke(Teardown(State([FooFix, DictionaryFix], AfterBoth())), FooBar) == IndexOutOfRange
  {
    assert AfterBoth()[FooBar] == PlaceholderBody(0);
    assert AfterBoth()[DictionaryDescription] == PlaceholderBody(1);
  }

  /** Before activation foo.bar() runs its own code. */
  lemma FooBarIsNativeBeforeActivation()
    ensures Invoke(State([], HostMethods), FooBar) == RanNative(0)
  {
  }

  /** After activation both test hotfixes are active, foo.bar() answers "hotfix0"
      and the dictionary's description answers "hotfix1". */
  lemma TestHotfixActivation()
    ensures ActivateAll(State([], HostMethods), [FooHotfix, DictionaryHotfix], TestEnv, Classes)
         == Step(State([FooFix, DictionaryFix], AfterBoth()), false)
    ensures Invoke(State([FooFix, DictionaryFix], AfterBoth()), FooBar) == Returned(Some(Str("hotfix0")))
    ensures Invoke(State([FooFix, DictionaryFix], AfterBoth()), DictionaryDescription) == Returned(Some(Str("hotfix1")))
  {
    TestHotfixesParse();
    TestBatchIsTwoSteps(FooHotfix, DictionaryHotfix);
    TestAnswers();
  }

  /** A host table whose only placeholders are the three defined ones. */
  lemma HostHasThreePlaceholders()
    ensures PlaceholdersBelow(HostMethods, PlaceholderCount)
  {
    PlaceholderSpelling();
    forall k, slot: nat | k in HostMethods && slot >= PlaceholderCount
      ensures k.selector != PlaceholderSelector(slot)
    {
      assert |PlaceholderSelector(slot)| > |"description"|;
      if k.selector == PlaceholderSelector(slot) {
        var i: nat :| i < PlaceholderCount && k.selector == PlaceholderSelector(i);
        PlaceholderSelectorInjective(i, slot);
      }
    }
  }

  /** While a placeholder is left, the foo.bar hotfix installs in the next slot. */
  lemma FooHotfixInstallsWhileSlotsRemain(s: State, d: Dict)
    requires Parse(d, Classes) == Ok(FooFix)
    requires s.methods.Keys == HostMethods.Keys && |s.active| < PlaceholderCount
    ensures var r := ActivateOne(s, d, TestEnv, Classes);
      !r.trapped && r.state.active == s.active + [FooFix] && r.state.methods.Keys == HostMethods.Keys
  {
    TestHotfixesParse();
    PlaceholderSpelling();
    var n := |s.active|;
    assert ReplacementKey(FooFix, n) == PlaceholderKey(Foo, PlaceholderSelector(n));
    assert n == 0 || n == 1 || n == 2;
    assert Installable(s, d, TestEnv, Classes);
  }

  /** Once the three placeholders are taken, the foo.bar hotfix changes nothing. */
  lemma FooHotfixDroppedWhenFull(s: State, d: Dict)
    requires Parse(d, Classes) == Ok(FooFix)
    requires s.methods.Keys == HostMethods.Keys && |s.active| >= PlaceholderCount
    ensures ActivateOne(s, d, TestEnv, Classes) == Step(s, false)
  {
    HostHasThreePlaceholders();
    assert PlaceholdersBelow(s.methods, PlaceholderCount);
    SlotsExhausted(s, d, TestEnv, Classes);
    TestHotfixesParse();
  }

  /**
   * No deduplication: a batch of n copies of the same hotfix installs as many
   * as there are free placeholders, each in its own slot, and drops the rest.
   */
  lemma {:induction false} RepeatedHotfixFillsFreeSlots(s: State, d: Dict, n: nat)
    requires Parse(d, Classes) == Ok(FooFix)
    requires s.methods.Keys == HostMethods.Keys && |s.active| <= PlaceholderCount
    ensures var r := ActivateAll(s, seq(n, _ => d), TestEnv, Classes);
      var installed := if n < PlaceholderCount - |s.active| then n else PlaceholderCount - |s.active|;
      !r.trapped && r.state.active == s.active + seq(installed, _ => FooFix)
    decreases n
  {
    var ds := seq(n, _ => d);
    if n > 0 {
      assert ds[0] == d && ds[1..] == seq(n - 1, _ => d);
      if |s.active| < PlaceholderCount {
        FooHotfixInstallsWhileSlotsRemain(s, d);
        var s1 := ActivateOne(s, d, TestEnv, Classes).state;
        RepeatedHotfixFillsFreeSlots(s1, d, n - 1);
        var installed := if n < PlaceholderCount - |s.active| then n else PlaceholderCount - |s.active|;
        AppendOneMore(s.active, FooFix, installed);
      } else {
        FooHotfixDroppedWhenFull(s, d);
        RepeatedHotfixFillsFreeSlots(s, d, n - 1);
      }
    } else {
      assert s.active + [] == s.active;
    }
  }

  /** Appending one copy, then k - 1 more, is appending k copies. */
  lemma AppendOneMore(active: seq<Hotfix>, h: Hotfix, k: nat)
    requires k > 0
    ensures active + [h] + seq(k - 1, _ => h) == active + seq(k, _ => h)
  {
    assert seq(k, _ => h) == [h] + seq(k - 1, _ => h);
  }

  /** Four hotfixes for foo.bar: slots 0, 1 and 2 are taken, the fourth is dropped. */
  lemma FourthHotfixFindsNoSlot(d: Dict)
    requires Parse(d, Classes) == Ok(FooFix)
    ensures var r := ActivateAll(State([], HostMethods), seq(4, _ => d), TestEnv, Classes);
      !r.trapped && r.state.active == [FooFix, FooFix, FooFix]
  {
    RepeatedHotfixFillsFreeSlots(State([], HostMethods), d, 4);
    assert [] + seq(3, _ => FooFix) == [FooFix, FooFix, FooFix];
  }

  /**
   * The same test against the manager: after activation foo.bar and the
   * dictionary's description answer through placeholders 0 and 1; after
   * deactivation foo.bar is still redirected and its call traps.
   */
  method TestHotfixActivationWithManager() returns (foo: CallOutcome, description: CallOutcome, fooAfterTeardown: CallOutcome)
    ensures foo == Returned(Some(Str("hotfix0")))
    ensures description == Returned(Some(Str("hotfix1")))
    ensures fooAfterTeardown == IndexOutOfRange
  {
    var runtime := new Runtime(Classes, HostMethods);
    var manager := new HotfixManager(runtime);
    var trapped := manager.ActivateHotfixes([FooHotfix, DictionaryHotfix], TestEnv);
    TestHotfixActivation();
    var activated := State([FooFix, DictionaryFix], AfterBoth());
    assert manager.Current() == activated;
    TestAnswers();
    foo := Invoke(manager.Current(), FooBar);
    description := Invoke(manager.Current(), DictionaryDescription);
    manager.DeactivateHotfixes();
    fooAfterTeardown := Invoke(manager.Current(), FooBar);
  }
}
