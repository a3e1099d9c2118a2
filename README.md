# Namespace of the minim element library, in Dafny

minim represents documents as trees of typed *elements*. Each element has a
type name, metadata, attributes and content. A **Namespace** ties them
together with five parts:

- **element class registry**: `elementMap`, from names to element types;
- **elements view**: the namespace's types under pascal-cased keys;
- **detection rule table**: `elementDetection`, ordered (test, type) pairs;
- **plugin loader**: `use`;
- **refract codec**: converts element trees to and from two wire forms, the full object
  `{element, meta, attributes, content}` and the compact array
  `[element, meta, attributes, content]`.

Every element is created with the namespace's default attribute-key lists.

`lib/namespace.js` is not part of this model. The behaviour modelled is the
one `test/namespace-test.js` asserts, completed by the library's design:

- unknown names fall back to BaseElement;
- detection is first-match, front to back;
- a plugin's `namespace` entry point is preferred over `load`;
- attributes named by the key lists are refracted as elements.

Layout, one module per part:

- `Wrappers`: `Option`, `Result`, `AllOk`.
- `Json`: wire values; object fields are kept in order.
- `Elements`: element types, as opaque tags with a content shape, and the element tree.
- `Detection`: the rule table and first-match classification.
- `Registry` (`registry.dfy`): the namespace state as a value, with `register`, `unregister`, `getElementClass`, `useDefault`, and element construction.
- `ElementsView` (`elements_view.dfy`): the `elements` view.
- `Plugins`: plugins and `use`.
- `Refract`: one decoder and one encoder, each parameterised by the wire form.
- `RefractLaws`: round-trip laws of the codec.
- `Conversion`: `toElement`.
- `Minim`: the class `Namespace`. Its fields are updated in place, and every method is proved equal to the value-level operation on `Snapshot()`.
- `Scenarios` and `Suite`: the suite's cases, on values and on the class.

Design decisions:

- **Element types** are tags `Kind(typeName, defaultName, shape)` or `BaseElement`. The shape is `Primitive` (content kept verbatim) or `Collection` (content is a sequence of child elements). BaseElement is `Primitive`, so an unknown name keeps whatever content it was given.
- **Detection tests** are tags `TestId`. What a tag says about a value is the parameter `holds`.
- **A plugin entry point** is the list of calls it makes on the `base` it is handed: `register`, `unregister`, `detect` or a nested `use`.
- **Key order.** `elementMap` keeps its keys' insertion order in `keyOrder`, as a JavaScript object does:
  - re-registering a name keeps its place;
  - `unregister` removes it.
- **The `elements` view** is a list of (key, type) pairs, built the way a JavaScript object literal is filled: assigning an existing key overwrites that entry in place.
- **Missing content in the full form** decodes to null for a primitive type and to no children for a collection type. `meta` and `attributes` default to empty objects.
- **Wrong shapes.** A collection type whose content is not an array is a `ContentNotArray` error. A primitive type keeps any content verbatim.

## Model

| member | source | states |
|---|---|---|
| Registry.Register | test/namespace-test.js:87-92 | after `register(name, T)` the lookup of `name` is `T`, every other lookup is unchanged, the key set gains `name`, a new name is appended to the key order and an overwritten one keeps its place, the rule table and key lists are untouched |
| Registry.Unregister | test/namespace-test.js:94-99 | after `unregister(name)` the name is absent and looks up as BaseElement, other lookups are unchanged, the key set loses exactly `name`, the key order closes the gap where `name` stood with every other key in its old order, and an absent name leaves the state exactly as it was |
| Registry.UseDefault | test/namespace-test.js:13-18 | the default catalogue leaves the map non-empty with exactly the old keys plus the catalogue's names, appends the catalogue names not registered before to the key order in catalogue order without moving an existing key, registers null, string, number, boolean, array and object under their types, leaves the lookup of every name outside the catalogue as it was, and appends the default rules after the existing ones |
| Registry.UseDefaultFromEmpty | test/namespace-test.js:9-13 | on an emptied registry `useDefault` lists exactly the catalogue's names, in catalogue order |
| Registry.GetElementClass | test/namespace-test.js:171-173 | a registered name looks up as its type in the element map, an unregistered one as BaseElement |
| Registry.AddRule | test/namespace-test.js:104-114 | adding a rule replaces the rule table with `Detection.Detect` of the old one and leaves the element map, key order and key lists alone, so well-formedness is unaffected |
| Registry.UseDefaultRun | test/namespace-test.js:13 | `useDefault` is the catalogue's registrations in order followed by the default rules appended |
| Registry.DefaultLookups | test/namespace-test.js:15-18 | once each catalogue name looks up as the type listed beside it, null, string, number, boolean, array and object have their types |
| Registry.DefaultNamesDistinct | test/namespace-test.js:13 | the catalogue lists no name twice |
| Registry.RegisterAll | test/namespace-test.js:13 | a run of registrations keeps the registry well formed, has exactly the old keys plus the listed names, leaves every unlisted name's lookup alone and touches neither the rule table nor the key lists |
| Registry.RegisterAllLookup | test/namespace-test.js:15-18 | with no name listed twice, each listed name looks up as the type listed beside it after the run |
| Registry.RegisterAllOrder | test/namespace-test.js:177-190 | with no name listed twice, the run appends the names not registered before, in the order listed, to the old key order |
| Registry.RegisterAllPrefix | test/namespace-test.js:13 | the run over the first `k + 1` names is the run over the first `k` followed by one registration |
| Registry.Unlisted | test/namespace-test.js:177-190 | the names appended are exactly the listed names not already known |
| Registry.UnlistedNone | test/namespace-test.js:177-190 | when nothing is known every listed name is appended, in order |
| Registry.UseCatalogue | test/namespace-test.js:13-18 | registering a duplicate-free catalogue and appending its rules gives the old keys plus the catalogue's, the new names appended to the key order in catalogue order, each catalogue name its listed type, every other lookup unchanged, and the rules after the old ones |
| Registry.CatalogueFromEmpty | test/namespace-test.js:9-13 | on an empty registry the catalogue's key order is the catalogue's own order |
| Registry.Values | test/namespace-test.js:185-187 | the values listed are the registered types of the names, one per name, in order |
| Registry.NewElement | test/namespace-test.js:29-37 | a newly constructed element carries the namespace's attribute-element and attribute-element-array key lists |
| Registry.Without | test/namespace-test.js:94-99 | removing a key from the key order keeps every other key and their distinctness, and is the identity for an absent key |
| Registry.WithoutAt | test/namespace-test.js:94-99 | removing a key that stands at index `k` of a duplicate-free order gives the keys before `k` followed by the keys after it |
| Detection.FirstMatch | test/namespace-test.js:101-115 | the index found is a rule whose test holds and no earlier rule's test holds, or -1 when no rule's test holds |
| Detection.Classify | test/namespace-test.js:101-115 | the type of the first rule whose test holds, BaseElement when none holds; Detection.FirstMatchAt and Detection.PrependedRuleWins state it |
| Detection.Detect | test/namespace-test.js:104-114 | `detect` by default puts the new rule at index 0 with the old rules after it in order; with `prepend` false it puts it at the last index with the old rules unchanged in front |
| Detection.FirstMatchAt | test/namespace-test.js:101-115 | an index whose rule holds with no earlier one holding is the first match, and decides the classification |
| Detection.PrependedRuleWins | test/namespace-test.js:104-108 | a prepended rule decides every value its test accepts and leaves all others to the earlier table |
| Detection.AppendedRuleIsLast | test/namespace-test.js:110-114 | an appended rule decides only values no earlier rule accepts |
| Plugins.Apply | test/namespace-test.js:56-84 | `use` keeps the registry well formed; Plugins.UseRegisters and Plugins.RunFromKeeps state what it registers and what it leaves alone |
| Plugins.Invoked | test/namespace-test.js:56-84 | the calls `use` makes are all structurally smaller than the plugin (so nested `use` terminates) |
| Plugins.InvokedChoice | test/namespace-test.js:56-84 | `use` runs the `namespace` entry point when present, else the `load` entry point, else nothing |
| Plugins.RunFromKeeps | test/namespace-test.js:56-84 | calls that do not touch a name leave its lookup and its membership alone |
| Plugins.UseRegisters | test/namespace-test.js:56-84 | a registration made by the invoked entry point, through `namespace` or `load`, is in the element map after `use` with its type, unless a later call of the entry point touches the same name |
| Plugins.RunFromSplit | test/namespace-test.js:56-84 | running an entry point is running its first `i` calls and then the rest |
| Plugins.EmptyPluginIsNoOp | test/namespace-test.js:57-64 | a plugin with neither entry point changes nothing |
| ElementsView.Pascal | test/namespace-test.js:192-196 | pascal-casing keeps the length and the tail and makes the first character upper-case |
| ElementsView.Assign | test/namespace-test.js:177-190 | assigning a key to the view keeps every existing key in its place, appends a new key at the end, overwrites an existing one in place without changing the length or any other entry, and keeps keys distinct |
| ElementsView.ViewOf | test/namespace-test.js:177-200 | the view built over a list of names has at least one and at most one more entry than names, and its first key is `BaseElement`; ElementsView.ViewKeys and ElementsView.ViewListsRegistered state the rest |
| ElementsView.ElementsOf | test/namespace-test.js:177-200 | `namespace.elements` has `BaseElement` as its first key, at most one entry per registered name after it, distinct keys, and every key upper-case; ElementsView.ElementsFacts gives its values |
| ElementsView.ViewKeys | test/namespace-test.js:177-200 | the view's first key is `BaseElement`, its keys are distinct, every key starts upper-case and every later key is a pascal-cased registered name |
| ElementsView.ViewStartsWithBase | test/namespace-test.js:198-200 | when no registered name pascal-cases to `BaseElement`, the first entry is BaseElement under `BaseElement` |
| ElementsView.ViewListsRegistered | test/namespace-test.js:177-190 | when no registered name pascal-cases to `BaseElement` and pascal-casing is injective on the names, the view has one entry per registered name, in registration order, each with its type |
| ElementsView.ElementsFacts | test/namespace-test.js:177-200 | the three facts together for a namespace: BaseElement first, then the element map's values in key order, every key upper-case |
| ElementsView.DefaultKeysDistinct | test/namespace-test.js:192-200 | the catalogue's names pascal-case to distinct keys, none of them `BaseElement` |
| ElementsView.DefaultElements | test/namespace-test.js:177-200 | on a registry holding the catalogue's keys, the view is BaseElement first and then the registered types in key order, every key upper-case |
| Refract.Open | test/namespace-test.js:125-167 | reading an envelope reports a non-object (full) or non-array (compact) as `NotAnEnvelope`, a missing element name, and a compact array of the wrong length with its length; its parts are smaller than the wire value |
| Refract.OpenParts | test/namespace-test.js:125-167 | reading a full envelope succeeds exactly when there is a string `element` field and `meta` and `attributes` are objects where present, and then the envelope holds those fields (absent ones empty) and the `content` field if any; a compact envelope succeeds exactly on a four-item array with a string, two objects and any content, and then holds those items |
| Refract.Decode | test/namespace-test.js:125-167 | a failing envelope fails decoding with its error; past the envelope decoding fails only on a failing attribute, on a collection type's non-array content or on a failing child, so the name's type never causes a failure; a primitive type keeps the content verbatim (null when missing) and a collection type without content has no children; a decoded element keeps the wire name, meta and decoded attributes, has the type the registry gives its name, and carries the namespace's key lists |
| Refract.DecodeItems | test/namespace-test.js:137-167 | a collection's children decode in order; the whole fails exactly when one child fails |
| Refract.DecodeAttributes | test/namespace-test.js:29-37 | attributes decode in order; the whole fails exactly when one attribute fails |
| Refract.Encode | test/namespace-test.js:125-167 | an element is written as the object `{element, meta, attributes, content}` in the full form and as the array `[element, meta, attributes, content]` in the compact form; RefractLaws.DecodeEncode, RefractLaws.EncodeDecode and RefractLaws.RoundTripIff specify it against the decoder |
| Refract.FromRefract | test/namespace-test.js:128-130 | `fromRefract` is the decoder with the form fixed to full |
| Refract.ToRefract | test/namespace-test.js:128-130 | `toRefract` is the encoder with the form fixed to full |
| Refract.FromCompactRefract | test/namespace-test.js:132-134 | `fromCompactRefract` is the decoder with the form fixed to compact |
| Refract.ToCompactRefract | test/namespace-test.js:132-134 | `toCompactRefract` is the encoder with the form fixed to compact |
| Refract.DecodeAttribute | test/namespace-test.js:29-37 | an attribute keeps its key; under an attribute-element key its value decodes as one element and the attribute fails exactly when that does; under an attribute-element-array key a non-array value is `AttributeNotArray`, and an array decodes item by item, failing exactly when an item fails; any other key keeps its value raw |
| Refract.EncodeAttributes | test/namespace-test.js:125-167 | the encoded attributes are the element's, in order, each with its value encoded |
| Refract.EncodeContent | test/namespace-test.js:125-167 | a value is written verbatim and children are written in order, each encoded |
| Refract.EncodeAttribute | test/namespace-test.js:29-37 | an array-of-elements attribute is written as an array of the encoded elements |
| RefractLaws.DecodeConforms | test/namespace-test.js:125-167 | whatever decodes conforms to the namespace: types from the registry, collection types holding children, key-listed attributes holding elements, key lists copied |
| RefractLaws.DecodeItemsConforms | test/namespace-test.js:137-167 | every decoded child conforms |
| RefractLaws.DecodeAttributeConforms | test/namespace-test.js:29-37 | every decoded attribute conforms |
| RefractLaws.OpenEncoded | test/namespace-test.js:125-167 | the envelope of an encoded element holds its name, meta, encoded attributes and encoded content |
| RefractLaws.OpenExact | test/namespace-test.js:125-167 | a wire value in the encoder's layout is rebuilt exactly from its envelope |
| RefractLaws.DecodeEncode | test/namespace-test.js:125-167 | decoding the encoding of a conforming element gives the element back, in both forms |
| RefractLaws.DecodeEncodeItems | test/namespace-test.js:137-167 | decoding encoded children gives the children back |
| RefractLaws.DecodeEncodeAttribute | test/namespace-test.js:29-37 | decoding an encoded attribute gives the attribute back |
| RefractLaws.EncodeDecode | test/namespace-test.js:125-167 | a canonical wire value decodes, and re-encoding the result gives the wire value back, in both forms |
| RefractLaws.EncodeDecodeItems | test/namespace-test.js:137-167 | canonical children decode and re-encode to themselves |
| RefractLaws.EncodeDecodeAttribute | test/namespace-test.js:29-37 | a canonical attribute decodes and re-encodes to itself |
| RefractLaws.EncodeCanonical | test/namespace-test.js:125-167 | the encoder writes only canonical wire values |
| RefractLaws.EncodeCanonicalAttribute | test/namespace-test.js:29-37 | encoded attributes are canonical |
| RefractLaws.RoundTripIff | test/namespace-test.js:125-167 | a wire value survives decode-then-encode unchanged if and only if it is canonical |
| RefractLaws.DecodeNormalises | test/namespace-test.js:125-167 | encoding a decoded element and decoding again gives the same element |
| RefractLaws.FormsAgree | test/namespace-test.js:125-135 | an element encoded in the full form and in the compact form decodes to the same element from either |
| RefractLaws.UnknownNameIsBase | test/namespace-test.js:171-173 | a wire value with a readable envelope, an unregistered name and decodable attributes always decodes, as a BaseElement with the wire name and its content verbatim (null when missing) |
| Conversion.ToElement | test/namespace-test.js:118-123 | `toElement` of an element is that element |
| Conversion.Convert | test/namespace-test.js:117-123 | a native value becomes an element of the type detection assigns it, named by that type, carrying the key lists; a primitive type always succeeds, a collection type fails exactly on a non-array or on a failing item |
| Conversion.ConvertItems | test/namespace-test.js:117-123 | array items convert in order; the whole fails exactly when an item fails |
| Conversion.ConvertToValue | test/namespace-test.js:117-123 | the converted element holds exactly the native value it was made from |
| Minim.Namespace.constructor | test/namespace-test.js:44-52 | a new namespace is well formed, empty with `noDefault`, otherwise holds the default catalogue |
| Minim.Namespace.Register | test/namespace-test.js:87-92 | the method's new state is `Registry.Register` of the old one |
| Minim.Namespace.Unregister | test/namespace-test.js:94-99 | the method's new state is `Registry.Unregister` of the old one |
| Minim.Namespace.Detect | test/namespace-test.js:104-114 | the method's new state is the old one with the rule added in front (default) or at the back |
| Minim.Namespace.UseDefault | test/namespace-test.js:48-52 | registering the catalogue and appending its detection rules gives `Registry.UseDefault` of the old state, key lists untouched |
| Minim.Namespace.RegisterEach | test/namespace-test.js:13 | `register` on each listed pair in turn gives `Registry.RegisterAll` of the old state |
| Minim.Namespace.DetectEach | test/namespace-test.js:13 | `detect(test, cls, false)` on each rule in turn appends the rules after the old ones, in order, and changes nothing else |
| Minim.Namespace.GetElementClass | test/namespace-test.js:171-173 | the registered type of a known name, BaseElement for an unknown one |
| Minim.Namespace.Use | test/namespace-test.js:56-84 | running the invoked entry point's calls one by one, nested `use` included, gives `Plugins.Apply` of the old state |
| Minim.Namespace.Detected | test/namespace-test.js:101-115 | the front-to-back scan returns the classification of the table, and a type other than BaseElement comes from the first rule whose test holds |
| Minim.Namespace.ToElement | test/namespace-test.js:117-123 | the method returns `Conversion.ToElement` on the namespace's state |
| Minim.Namespace.Elements | test/namespace-test.js:176-200 | the loop over the key order builds `ElementsView.ElementsOf` of the namespace's state |
| Scenarios.Fresh | test/namespace-test.js:9-19 | the namespace of `beforeEach` is well formed and maps string and array to their types |
| Scenarios.UnknownElementClass | test/namespace-test.js:171-173 | every name outside the catalogue, `unknown` among them, resolves to BaseElement in that namespace |
| Scenarios.EmptyNamespaceView | test/namespace-test.js:44-46 | a `noDefault` namespace has an empty map and a view holding BaseElement alone |
| Scenarios.PlainCanonical | test/namespace-test.js:125-167 | an envelope with empty meta and attributes and content suiting the resolved type is canonical |
| Scenarios.RegisteredFoo | test/namespace-test.js:126 | registering `foo` on the fresh namespace maps it to the given type and keeps `string` a string type |
| Scenarios.ValueRoundTrip | test/namespace-test.js:125-135 | with `foo` a string type, `{element: 'foo', meta: {}, attributes: {}, content: 'test'}` and `['foo', {}, {}, 'test']` decode and re-encode to themselves |
| Scenarios.SampleRoundTrip | test/namespace-test.js:137-167 | wherever `foo` is an array type and `string` a string type, the suite's collection sample decodes and re-encodes to itself in the given form |
| Scenarios.AttributeDefaultsCopied | test/namespace-test.js:29-37 | with `foo` and `bar` as the key lists, a new string element's own lists are `['foo']` and `['bar']` |
| Suite.Created | test/namespace-test.js:10 | `new Namespace()` is well formed with empty key lists |
| Suite.Fresh | test/namespace-test.js:9-19 | after `beforeEach` the namespace is well formed and non-empty, its key order is the catalogue's, string and object have their types, names outside the catalogue are unknown, and the key lists are empty |
| Suite.AttributeDefaults | test/namespace-test.js:29-37 | pushing `foo` and `bar` on the namespace's key lists gives a new string element the lists `['foo']` and `['bar']` |
| Suite.Defaults | test/namespace-test.js:39-53 | the defaults are present, a `noDefault` namespace is empty, and `useDefault` on it makes it non-empty |
| Suite.UsePlugins | test/namespace-test.js:55-85 | a plugin registering `null2` through `namespace` and one registering `null3` through `load` both leave their name mapped to NullElement |
| Suite.RegisterUnregister | test/namespace-test.js:87-99 | `register('test', ObjectElement)` maps `test` to ObjectElement; `unregister('test')` leaves it out |
| Suite.DetectOrder | test/namespace-test.js:101-115 | on the table `[[test, NullElement]]`, `detect(test, StringElement)` puts StringElement at index 0 and `detect(test, ObjectElement, false)` puts ObjectElement at index 1 |
| Suite.ToElementIdentity | test/namespace-test.js:118-123 | `toElement` of a string element is that element |
| Suite.UnknownLookup | test/namespace-test.js:171-173 | `getElementClass('unknown')` is BaseElement |
| Suite.ElementsKeys | test/namespace-test.js:177-200 | the view's first entry is BaseElement under `BaseElement`, the values after it are the element map's values in key order (one per catalogue name), and every key starts upper-case |
| Suite.EmptyElementsView | test/namespace-test.js:44-46 | a `noDefault` namespace's view holds BaseElement alone |

## Left out

- The module-export checks at test/namespace-test.js:21-27 are not modelled. They concern the JavaScript module system.
- JavaScript prototypes, `instanceof` and constructor identity are not modelled. Element types are tags and elements are values, so "the same instance" (line 122) is value equality.
- Registry.UseDefault: the catalogue holds only the six kinds the suite names: null, string, number, boolean, array, object. The library's other kinds are not modelled.
- Minim.Namespace.UseDefault registers the catalogue and appends its rules by iterating over it. Whether the library writes those calls out one by one is not visible, because `lib/namespace.js` is not part of this model; the resulting state is the same.
- Detection tests are opaque tags read through the parameter `holds`. The JavaScript predicate functions themselves are not modelled.
- ElementsView.Pascal: only an ASCII first letter is upper-cased. JavaScript `toUpperCase` on other characters is not modelled.
- ElementsView.Pascal maps the empty name to the empty key, and ElementsView.UpperInitial holds of the empty key. The suite's check `name[0].toUpperCase()` (line 194) would throw on an empty key instead. Such a key never arises from the catalogue.
- A plugin whose entry point `use`s itself, directly or through a nested plugin, recurses without end in the library. Plugins.Plugin is an inductive datatype, so such a plugin cannot be built, and every `use` in the model terminates.
- ElementsView.ViewListsRegistered and ElementsView.ElementsFacts state the order of the view's values only when no two names pascal-case to the same key and none pascal-cases to `BaseElement`. Otherwise the JavaScript object overwrites entries, and the suite's claim at lines 177-190 does not hold.
- The ordering JavaScript objects give integer-like keys (ahead of all others) is not modelled. `keyOrder` is plain insertion order.
- RefractLaws.RoundTripIff, RefractLaws.Exact and RefractLaws.Canonical compare wire objects field by field, in order. The suite's `deep.equal` (lines 130, 162) ignores key order, so a full-form value such as `{meta: {}, element: 'foo', attributes: {}, content: 'test'}` round-trips in the suite's sense but not in the model's: re-encoding writes its fields in the order `element`, `meta`, `attributes`, `content`. The model does not state the round trip up to a reordering of object fields.
- Numbers are integers. Floating point is not modelled.
- The single-nested-element content shape is not modelled. Element types are either primitive or collections.
- Conversion.Convert turns a native value into a collection type only from an array. An object value for ObjectElement is a `NotAnArray` error, because member elements (key/value pairs) are not part of this model.
- The options object `{base: this}` handed to a plugin is not modelled beyond the calls the entry point makes on `base`. A plugin is a list of those calls.
- Minim.Namespace.Detect and the other methods require the class invariant `Valid()`: the key order lists each key of `elementMap` exactly once. The suite's direct field assignments (lines 11-12, 105, 111) keep it.
