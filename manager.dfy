/**
 * The hotfix manager: the list of active hotfixes it updates in place, and
 * the runtime whose method table its installs change.
 */
module Manager {
  import opened Descriptor
  import opened MethodTable
  import opened Activation

  /** The Objective-C runtime as the manager uses it: classes by name, and the method table. */
  class Runtime {
    const classes: ClassRegistry
    var methods: Table

    constructor (classes: ClassRegistry, methods: Table)
      ensures this.classes == classes && this.methods == methods
    {
      this.classes := classes;
      this.methods := methods;
    }

    /** Exchanges the implementations of two methods the caller has found. */
    method ExchangeImplementations(a: MethodKey, b: MethodKey)
      requires a in methods && b in methods
      modifies this
      ensures methods == Exchange(old(methods), a, b)
    {
      methods := Exchange(methods, a, b);
    }
  }

  class HotfixManager {
    var activeHotfixes: seq<Hotfix>
    const runtime: Runtime

    constructor (runtime: Runtime)
      ensures activeHotfixes == [] && this.runtime == runtime
    {
      activeHotfixes := [];
      this.runtime := runtime;
    }

    /** The state the activation functions speak about. */
    function Current(): State
      reads this, runtime
    {
      State(activeHotfixes, runtime.methods)
    }

    /**
     * Parses, filters and installs each dictionary in turn, appending each
     * installed hotfix. Returns whether the process trapped, in which case
     * the dictionaries after the trapping one were never processed.
     */
    method ActivateHotfixes(hotfixDicts: seq<Dict>, env: Env) returns (trapped: bool)
      modifies this, runtime
      ensures Step(Current(), trapped) == ActivateAll(old(Current()), hotfixDicts, env, runtime.classes)
    {
      trapped := false;
      for i := 0 to |hotfixDicts|
        invariant ActivateAll(Current(), hotfixDicts[i..], env, runtime.classes)
               == ActivateAll(old(Current()), hotfixDicts, env, runtime.classes)
      {
        assert hotfixDicts[i..][0] == hotfixDicts[i] && hotfixDicts[i..][1..] == hotfixDicts[i + 1..];
        var parsed := Parse(hotfixDicts[i], runtime.classes);
        if parsed.Ok? {
          var hotfix := parsed.value;
          if Applies(hotfix, env) {
            var outcome := ActivateHotfix(hotfix);
            if outcome == Swapped {
              activeHotfixes := activeHotfixes + [hotfix];
            } else if outcome == SelectorNil {
              trapped := true;
              return;
            }
          }
        }
      }
    }

    /**
     * Installs a hotfix in the next slot: its method is exchanged with the
     * placeholder numbered by the current length of the active list.
     */
    method ActivateHotfix(hotfix: Hotfix) returns (outcome: Install)
      modifies runtime
      ensures outcome == InstallOutcome(old(runtime.methods), hotfix, |activeHotfixes|)
      ensures runtime.methods ==
        if outcome == Swapped
        then Exchange(old(runtime.methods), OriginalKey(hotfix), ReplacementKey(hotfix, |activeHotfixes|))
        else old(runtime.methods)
    {
      var replacementSelector;
      match hotfix.replacementSelector {
        case ReturnObject => replacementSelector := PlaceholderSelector(|activeHotfixes|);
      }
      if hotfix.selector.None? {
        // The selector is force-unwrapped to pass it on: a nil selector traps.
        return SelectorNil;
      }
      var swapped := SwizzleMethodSelector(hotfix.selector.value, hotfix.targetClass, replacementSelector, hotfix.methodType);
      outcome := if swapped then Swapped else MethodNotFound;
    }

    /** Reversing one hotfix is not implemented: it always reports failure. */
    method DeactivateHotfix(hotfix: Hotfix) returns (reverted: bool)
      ensures !reverted
    {
      reverted := false;
    }

    /**
     * Tries to reverse every active hotfix, then empties the active list
     * whatever the outcome; the method table is left as it is.
     */
    method DeactivateHotfixes()
      modifies this
      ensures Current() == Teardown(old(Current()))
    {
      var hotfixes := activeHotfixes;
      for i := 0 to |hotfixes| {
        var reverted := DeactivateHotfix(hotfixes[i]);
      }
      activeHotfixes := [];
    }

    /**
     * Exchanges a method with a replacement method of the same class and kind
     * (instance or class method) if both exist; otherwise changes nothing.
     */
    method SwizzleMethodSelector(originalSelector: string, inClass: ClassHandle, replacementSelector: string, kind: MethodType)
      returns (swapped: bool)
      modifies runtime
      ensures var original, replacement := MethodKey(inClass, originalSelector, kind), MethodKey(inClass, replacementSelector, kind);
        && swapped == (original in old(runtime.methods) && replacement in old(runtime.methods))
        && runtime.methods == if swapped then Exchange(old(runtime.methods), original, replacement) else old(runtime.methods)
    {
      var original := MethodKey(inClass, originalSelector, kind);
      var replacement := MethodKey(inClass, replacementSelector, kind);
      if original in runtime.methods && replacement in runtime.methods {
        runtime.ExchangeImplementations(original, replacement);
        return true;
      }
      return false;
    }

    /** The value of the hotfix at `index` of the active list; past the end, the read traps. */
    method PerformHotfixReplacementAtIndex(index: int) returns (r: CallOutcome)
      ensures r == PerformAt(activeHotfixes, index)
      ensures r.Returned? <==> 0 <= index < |activeHotfixes|
    {
      if 0 <= index < |activeHotfixes| {
        r := Returned(activeHotfixes[index].replacementReturnValue);
      } else {
        r := IndexOutOfRange;
      }
    }

    /** The body of placeholder `slot` (hotfixPlaceholder0 to hotfixPlaceholder2). */
    method HotfixPlaceholder(slot: nat) returns (r: CallOutcome)
      requires slot < PlaceholderCount
      ensures r == PerformAt(activeHotfixes, slot)
    {
      r := PerformHotfixReplacementAtIndex(slot);
    }
  }
}
