# HotfixKit activation engine, modelled in Dafny

HotfixKit lets an iOS application replace the result of a named Objective-C
method at run time, from hotfix dictionaries pushed by a server. This project
models the engine in `HotfixKit/HotfixManager.swift` and proves properties of it:

- **Descriptor parsing** (`Descriptor.Parse`). A loosely typed dictionary becomes a
  `Hotfix` record, or the first failing field is reported. `AppVersion`,
  `OSVersion` and `Selector` may be absent but must be strings when present.
  `InterfaceIdiom` must be one of six exact spellings. `Class` must name a class
  the runtime knows. `MethodType` and `ReplacementSelector` fall back to their
  defaults. `ReplacementReturnValue` is stored untouched.
- **Applicability** (`Descriptor.Applies`). Each constraint a hotfix carries must
  equal the environment's value exactly.
- **Activation and teardown** (`Manager.HotfixManager`). A class holds the
  `activeHotfixes` list, and a `Runtime` object holds the method table. Its methods
  are proved against the pure specification in `Activation`: `ActivateOne` for one
  dictionary and `ActivateAll` for a batch.
- **Slot addressing**. A hotfix installed while n hotfixes are active is exchanged
  with the placeholder method `hotfixPlaceholder<n>` and appended at index n.
  Placeholder n answers with the value of `activeHotfixes[n]`. Only placeholders
  0 to 2 exist, so a fourth install fails at the exchange step.

The Objective-C runtime is modelled abstractly:

- The method table is a map from (class, selector, instance/class kind) to an
  implementation, which is either native host code or the body of placeholder k.
- An install exchanges two entries, and only when both exist.
- Looking a class up by name is a map from names to class handles.
- The environment (app version, OS version, device idiom) is a parameter.

`Scenario` restates the repository's activation test. With app version 1.0 and
OS version 8.1, the hotfixes for `Foo.bar` and `NSDictionary.description` take
slots 0 and 1. After activation those methods answer "hotfix0" and "hotfix1".

The source traps in two places, and the model makes both traps explicit outcomes:

- `Selector` may be absent: the stored selector is nil and parsing succeeds. The
  selector is force-unwrapped when the hotfix is installed, so an applicable hotfix
  without a selector ends the process. `ActivateOne` reports `trapped`, and
  `ActivateAll` and `HotfixManager.ActivateHotfixes` process no later item.
- `performHotfixReplacementAtIndex` indexes the active list without a bounds check.
  `deactivateHotfixes` empties that list but undoes no exchange. So a method that is
  still redirected to a placeholder reads past the end once teardown has run
  (`IndexOutOfRange`).

Some behaviour of the code is easy to misread:

- **Slots.** The code has no slot pool with allocation and release. The slot is the
  current length of the active list, and teardown frees every slot by emptying the
  list while the exchanges stay in place. Re-installing the same hotfix at slot 0
  after teardown exchanges the same two methods back
  (`ReinstallAfterTeardownRestoresTable`).
- **Device class.** The spellings are matched case-sensitively. "PAD" is rejected.
- **Errors.** A failed parse yields no value in the source, only a log line.
  `ParseError` names the field that the log line names. A missing `Class` and a
  non-string `Class` are one error (`ClassMissing`), as in the code.
- **Selector.** `Selector` is not required by the parser (see above).

## Model

| member | source | states |
|---|---|---|
| Descriptor.IdiomFromString | HotfixKit/HotfixManager.swift:92-101 | a device class is recognised exactly for "pad"/"ipad"/"iPad" (Pad) and "phone"/"iphone"/"iPhone" (Phone); every other string, "PAD" included, is not recognised |
| Descriptor.Parse | HotfixKit/HotfixManager.swift:74-143 | parsing succeeds exactly when AppVersion/OSVersion/Selector are absent or strings, InterfaceIdiom is absent or an accepted spelling, and Class is a string naming a known class. Each parsed field is what the dictionary holds: absent means nil, MethodType is Class exactly for "class", and the return value is passed through |
| Descriptor.ParseReportsFirstFailingField | HotfixKit/HotfixManager.swift:74-124 | a rejected dictionary reports the first failing field in source order (AppVersion, OSVersion, InterfaceIdiom, Class, Selector) and how it failed: not a string, an unexpected idiom spelling, a missing or non-string Class, or a class name the runtime does not know |
| Descriptor.SoftFieldsNeverReject | HotfixKit/HotfixManager.swift:126-140 | whatever values MethodType and ReplacementSelector hold, they never change whether a dictionary parses, and they affect no field other than the method type |
| Descriptor.ReturnValuePassesThrough | HotfixKit/HotfixManager.swift:142 | any value under ReplacementReturnValue, of any type, is stored unchanged in an accepted hotfix |
| Descriptor.Applies | HotfixKit/HotfixManager.swift:197-223 | a hotfix applies exactly when each constraint it carries (app version, OS version, idiom) equals the environment's value; absent constraints impose nothing |
| Descriptor.AppliesIffDictMatches | HotfixKit/HotfixManager.swift:197-223 | for a parsed dictionary, it applies exactly when every constraint key present holds the environment's app version, OS version, or a spelling of its idiom, so "1.0" does not match "1.0.1" |
| Descriptor.UnconstrainedAppliesEverywhere | HotfixKit/HotfixManager.swift:197-223 | a hotfix with no constraints applies in every environment |
| MethodTable.Exchange | HotfixKit/HotfixManager.swift:247-249 | exchanging two existing methods swaps their implementations, keeps the set of methods, and leaves every other method's implementation as it was |
| MethodTable.ExchangeTwiceRestores | HotfixKit/HotfixManager.swift:248 | exchanging the same two methods twice restores the table |
| Manager.Runtime.ExchangeImplementations | HotfixKit/HotfixManager.swift:248 | the runtime's method table becomes the exchange of the two methods |
| Activation.NatToString | HotfixKit/HotfixManager.swift:229 | the interpolated count is a non-empty string of decimal digits, one digit exactly for counts below ten, with no leading zero except for zero itself |
| Activation.NatToStringInjective | HotfixKit/HotfixManager.swift:229 | distinct active counts interpolate to distinct decimal strings |
| Activation.PlaceholderSelector | HotfixKit/HotfixManager.swift:227-229 | the replacement selector for slot n is "hotfixPlaceholder" followed by the decimal spelling of n |
| Activation.OriginalKey | HotfixKit/HotfixManager.swift:231-235 | the method to replace is the hotfix's selector on its target class, with the hotfix's method kind |
| Activation.ReplacementKey | HotfixKit/HotfixManager.swift:227-235 | the replacement method is placeholder n on the same class with the same kind, and it is a different method from the original unless the original selector is that placeholder's own |
| Activation.PlaceholderSelectorInjective | HotfixKit/HotfixManager.swift:229 | each slot number names its own placeholder selector |
| Activation.InstallOutcome | HotfixKit/HotfixManager.swift:225-262 | an install exchanges the methods exactly when the hotfix has a selector and both the original method and placeholder n (same class, same kind) exist; it traps exactly when the selector is nil |
| Activation.ActivateOne | HotfixKit/HotfixManager.swift:172-187 | one dictionary: if it fails to parse, does not apply or its install finds a method missing, the list and the table are unchanged; if it installs, the hotfix is appended and exactly its two methods are exchanged; it traps exactly for an applicable hotfix without a selector |
| Activation.ActivateAll | HotfixKit/HotfixManager.swift:171-188 | a batch only appends to the active list (the old list stays a prefix), at most one hotfix per item, each appended hotfix parsed from an item of the batch and applicable, and the set of methods never changes |
| Activation.ActivateAllAppend | HotfixKit/HotfixManager.swift:171-188 | items are processed in order: a batch is its first part followed by the rest from the state the first part left, unless the first part trapped |
| Activation.RejectedItemIsInert | HotfixKit/HotfixManager.swift:172-186 | an item that does not parse or does not apply can be removed from a batch without changing the outcome; later items are still processed |
| Activation.InstalledAtNextSlot | HotfixKit/HotfixManager.swift:177 | a hotfix installed with n hotfixes active lands at index n; earlier entries are kept; its method now runs what placeholder n ran, and the reverse; every other method is unchanged |
| Activation.SlotsExhausted | HotfixKit/HotfixManager.swift:275-287 | with three hotfixes active and no placeholder numbered three or more, any dictionary leaves list and table unchanged |
| Activation.ActivateAllBounded | HotfixKit/HotfixManager.swift:275-287 | starting with at most three active and no placeholder numbered three or more, no batch makes more than three hotfixes active |
| Activation.PerformAt | HotfixKit/HotfixManager.swift:265-268 | placeholder index i answers with the return value of the hotfix at index i when i is in range, and traps otherwise |
| Activation.InstalledMethodAnswersWithValue | HotfixKit/HotfixManager.swift:225-268 | if placeholder n still runs its own body, then after the hotfix installs at slot n, calling its original method answers with the hotfix's configured value |
| Activation.Teardown | HotfixKit/HotfixManager.swift:190-195 | deactivation empties the active list and leaves the method table as it is |
| Activation.RedirectedCallAfterTeardownTraps | HotfixKit/HotfixManager.swift:190-195 | after deactivation a method still redirected to a placeholder reads past the end of the empty list |
| Activation.ReinstallAfterTeardownRestoresTable | HotfixKit/HotfixManager.swift:190-195 | after one install at slot 0 and teardown, installing the same hotfix again reuses slot 0 and brings the method table back to its state before the first install |
| Manager.HotfixManager.constructor | HotfixKit/HotfixManager.swift:161 | a new manager has no active hotfixes |
| Manager.HotfixManager.ActivateHotfixes | HotfixKit/HotfixManager.swift:171-188 | the new active list, the new method table and whether the process trapped are exactly what ActivateAll gives for the old state and the batch |
| Manager.HotfixManager.ActivateHotfix | HotfixKit/HotfixManager.swift:225-237 | the install uses placeholder number `activeHotfixes.count`; its outcome is InstallOutcome, and the table is exchanged on success and unchanged otherwise |
| Manager.HotfixManager.DeactivateHotfix | HotfixKit/HotfixManager.swift:239-241 | reversing a hotfix always reports failure |
| Manager.HotfixManager.DeactivateHotfixes | HotfixKit/HotfixManager.swift:190-195 | the active list is always empty afterwards, and the method table is unchanged |
| Manager.HotfixManager.SwizzleMethodSelector | HotfixKit/HotfixManager.swift:243-262 | reports success exactly when both methods exist for the given kind; then exactly they are exchanged, otherwise the table is unchanged |
| Manager.HotfixManager.PerformHotfixReplacementAtIndex | HotfixKit/HotfixManager.swift:265-268 | returns the value of the active hotfix at the index, trapping outside the list |
| Manager.HotfixManager.HotfixPlaceholder | HotfixKit/HotfixManager.swift:275-285 | placeholder k (0 to 2) answers what the active hotfix at index k holds |
| Scenario.PlaceholderSpelling | HotfixKit/HotfixManager.swift:275-285 | the selectors for slots 0, 1, 2 are hotfixPlaceholder0/1/2 |
| Scenario.TestHotfixesParse | HotfixKitTests/HotfixKitTests.swift:43-62 | both test dictionaries parse to the expected hotfixes and apply in the 1.0 / 8.1 environment |
| Scenario.FooHotfixTakesSlotZero | HotfixKitTests/HotfixKitTests.swift:43-52 | from the test host with nothing active, the first test dictionary becomes active at index 0 and exactly foo.bar and placeholder 0 of Foo are exchanged |
| Scenario.DictionaryHotfixTakesSlotOne | HotfixKitTests/HotfixKitTests.swift:53-62 | with the first test hotfix active, the second becomes active at index 1 and exactly the dictionary's description and placeholder 1 of NSDictionary are exchanged; foo.bar stays redirected |
| Scenario.TestBatchIsTwoSteps | HotfixKitTests/HotfixKitTests.swift:43-62 | activating the two test dictionaries as a batch ends in the state of the two single steps, without trapping |
| Scenario.TestAnswers | HotfixKitTests/HotfixKitTests.swift:63-64 | in that state foo.bar answers "hotfix0" and the dictionary's description answers "hotfix1"; once the list is emptied, foo.bar reads past its end |
| Scenario.FooBarIsNativeBeforeActivation | HotfixKitTests/HotfixKitTests.swift:37 | before activation foo.bar runs its own implementation |
| Scenario.TestHotfixActivation | HotfixKitTests/HotfixKitTests.swift:43-64 | after activating the two test dictionaries both are active, foo.bar answers "hotfix0" and the dictionary's description answers "hotfix1" |
| Scenario.HostHasThreePlaceholders | HotfixKit/HotfixManager.swift:275-287 | the test host has no placeholder numbered three or more |
| Scenario.FooHotfixInstallsWhileSlotsRemain | HotfixKit/HotfixManager.swift:225-235 | over the test host's methods, the foo.bar hotfix installs whenever fewer than three hotfixes are active, appending itself without trapping |
| Scenario.FooHotfixDroppedWhenFull | HotfixKit/HotfixManager.swift:275-287 | over the test host's methods, with three or more active, the foo.bar hotfix is dropped and list and table are unchanged |
| Scenario.RepeatedHotfixFillsFreeSlots | HotfixKit/HotfixManager.swift:171-188 | n copies of one hotfix (no deduplication) install min(n, free placeholders) copies, each in its own slot, and drop the rest without trapping |
| Scenario.FourthHotfixFindsNoSlot | HotfixKit/HotfixManager.swift:275-287 | of four hotfixes for foo.bar, three are active afterwards and the fourth is dropped |
| Scenario.TestHotfixActivationWithManager | HotfixKitTests/HotfixKitTests.swift:34-64 | driving a manager through the test: foo.bar answers "hotfix0" and the dictionary's description "hotfix1"; after deactivateHotfixes foo.bar traps reading past the empty list |

## Left out

- `HotfixAlert` and `HotfixAlertButton` are not modelled. The parser never assigns an alert, and the core never reads one.
- `println` logging is not modelled. It is side output only, and the kind of `ParseError` stands in for each rejection message.
- The singleton `sharedHotfixManager` and the public class-method wrappers are not modelled. They only delegate to one manager, and the model constructs that manager explicitly.
- Concurrent activation and placeholder calls are not modelled. The source does no synchronisation.
- Environment queries are not modelled. The source hardcodes "1.0" and "8.1" and asks `UIDevice` for the idiom; the model takes an `Env` parameter instead.
- `NSClassFromString` is not modelled. A `ClassRegistry` map stands in for it.
- `class_getInstanceMethod` and `class_getClassMethod` are not modelled. Membership of (class, selector, kind) in the method table stands in for them.
- Objective-C inheritance is not modelled. The placeholders are defined on `NSObject`, a method lookup searches superclasses, and exchanging an inherited method changes it for the defining class and every subclass. The model keys the table by the class asked about, so one exchange affects exactly two entries.
- Manager.HotfixManager.SwizzleMethodSelector: the source's two helpers `swizzleInstanceMethodSelector` and `swizzleClassMethodSelector` are one method here, parameterised by the method kind. Each source helper differs from the other only in which lookup it calls.
- A Swift trap is modelled as an outcome (`trapped`, `IndexOutOfRange`, `UnrecognizedSelector`). The model does not model the process ending; the batch loop simply stops.
- Direct Swift calls are not modelled. The model assumes every call of a hotfixed method is dispatched through the Objective-C method table; a Swift call of a method not marked `dynamic`, such as `Foo.bar` in HotfixKitTests/HotfixKitTests.swift:16 and :63, may be bound statically and then never see the exchange.
- Non-string dictionary values are opaque (`Other(id)`), and non-string dictionary keys are not modelled.
