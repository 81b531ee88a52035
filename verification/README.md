# Three ASP.NET Core components, modelled in Dafny

This project models three small pieces of ASP.NET Core and proves what they promise.

- **The Ignitor node serializer** (`NodeSerializer`). It is a debug printer for a
  rendered component tree. A depth-first walk writes one line for each component
  header, element tag, text and markup node. Each nesting level is indented by four
  spaces. Markup newlines are escaped as the literal text `\r\n`. A set of visited
  nodes keeps a node reachable from several components from being printed twice.
  The model is the module `NodeSerializer` (`node_serializer.dfy`). The text writer
  becomes a pure `Writer` value: the text so far, plus the "at start of line" flag.
  The serializer's mutable fields become a `Serializer` record threaded through pure
  functions. That record carries a log of the nodes printed, which lets the proofs
  state "each node at most once".
- **The MVC binding-source convention** (`InferParameterBindingInfoConvention`). It
  gives every action parameter with no binding source a source:
  - Body for a complex type;
  - Path for a name that appears in any attribute route template;
  - Query otherwise.

  It never overwrites a source that is already set. It rejects an action with more
  than one body parameter. The model is the module `InferParameterBindingInfo`
  (`binding_inference.dfy`). The C# loops become methods with loop invariants. The
  model-metadata and route-template services become function parameters.
- **The hosting options** (`WebHostOptions`). These are the host settings read from
  configuration:
  - the application name, with a fallback;
  - the hosting-startup assembly lists, split on `;` with trimming and with empty
    entries dropped;
  - the exclusion of assemblies ignoring case;
  - the shutdown timeout, parsed as digits only.

  The model is the module `WebHostOptions` (`web_host_options.dfy`).

Shared modules:
- `Outcomes` (`outcomes.dfy`): `Option`, `Result` and the two exceptions the code
  throws.
- `Decimal` (`decimal.dfy`): invariant-culture decimal text and `int.TryParse` with
  `NumberStyles.None`.
- `Text` (`text.dfy`): `String.Trim`, ordinal ignore-case comparison and
  `String.Replace`.

Throwing is modelled as a `Failure` result or an error value. The one place where the
C# mutates state and then throws, in `InferParameterBindingSources`, returns both the
updated action and the error.

## Model

| member | source | states |
|---|---|---|
| `NodeSerializer.Indent` | src/Components/Ignitor/src/NodeSerializer.cs:212-216 | the indentation is exactly `4 * depth` characters, all of them spaces |
| `NodeSerializer.Write` | src/Components/Ignitor/src/NodeSerializer.cs:189-199 | a write only appends to the output, and afterwards the writer is no longer at the start of a line |
| `NodeSerializer.WriteLine` | src/Components/Ignitor/src/NodeSerializer.cs:201-210 | a line write only appends to the output, and afterwards the writer is at the start of a line |
| `NodeSerializer.WriteIndentation` | src/Components/Ignitor/src/NodeSerializer.cs:189-216 | indentation is emitted before the content exactly when the writer is at the start of a line; otherwise the content follows the output directly; a line write adds the newline after the content |
| `NodeSerializer.EscapeMarkup` | src/Components/Ignitor/src/NodeSerializer.cs:97-101 | for the `\n` and `\r\n` newlines, escaped markup contains no occurrence of the platform newline; markup with no newline in it is printed unchanged |
| `NodeSerializer.EscapeFirstNewLine` | src/Components/Ignitor/src/NodeSerializer.cs:97-101 | the first newline in the markup becomes the four characters `\r\n`; the text before it is kept and the rest is escaped the same way |
| `NodeSerializer.EscapeMarkupExample` | src/Components/Ignitor/src/NodeSerializer.cs:97-101 | for example, with the `\n` newline, `a` newline `b` is printed as `a\r\nb` |
| `NodeSerializer.Serialize` | src/Components/Ignitor/src/NodeSerializer.cs:52-95 | a node already visited changes nothing; a new node is marked visited and is printed next in order; the output and the visited/printed records only grow; depth and newline are restored; every node except a bare container ends at the start of a line; the visited set stays equal to the duplicate-free printed log |
| `NodeSerializer.SerializeTextNode` | src/Components/Ignitor/src/NodeSerializer.cs:103-107 | a text node changes only the writer, only appends, and ends a line |
| `NodeSerializer.SerializeMarkupNode` | src/Components/Ignitor/src/NodeSerializer.cs:97-101 | a markup node changes only the writer, only appends, and ends a line |
| `NodeSerializer.SerializeUnknownNode` | src/Components/Ignitor/src/NodeSerializer.cs:87-93 | an unknown node kind changes only the writer, only appends, and ends a line |
| `NodeSerializer.SerializeChildren` | src/Components/Ignitor/src/NodeSerializer.cs:171-177 | walking the children keeps depth and newline, only grows the output and the records, and preserves consistency |
| `NodeSerializer.SerializeAll` | src/Components/Ignitor/src/NodeSerializer.cs:171-177 | after a walk over a node list, every node of the list is visited |
| `NodeSerializer.SerializeComponent` | src/Components/Ignitor/src/NodeSerializer.cs:179-187 | a component leaves the depth as it found it and ends at the start of a line |
| `NodeSerializer.SerializeElement` | src/Components/Ignitor/src/NodeSerializer.cs:109-169 | an element leaves the depth as it found it and ends at the start of a line |
| `NodeSerializer.WriteAttribute` | src/Components/Ignitor/src/NodeSerializer.cs:114-125 | one attribute only appends and leaves the line open |
| `NodeSerializer.WriteAttributes` | src/Components/Ignitor/src/NodeSerializer.cs:114-125 | the attribute list only appends; a non-empty list leaves the line open, and an empty one leaves the writer unchanged |
| `NodeSerializer.WriteEvent` | src/Components/Ignitor/src/NodeSerializer.cs:150-157 | one event only appends and leaves the line open |
| `NodeSerializer.WriteEvents` | src/Components/Ignitor/src/NodeSerializer.cs:150-157 | the event list only appends; a non-empty list leaves the line open, and an empty one leaves the writer unchanged |
| `NodeSerializer.WritePropertiesSection` | src/Components/Ignitor/src/NodeSerializer.cs:127-144 | the properties section only appends |
| `NodeSerializer.WriteEventsSection` | src/Components/Ignitor/src/NodeSerializer.cs:146-159 | the events section only appends |
| `NodeSerializer.WriteOpenTag` | src/Components/Ignitor/src/NodeSerializer.cs:111-161 | the opening tag only appends and ends a line |
| `NodeSerializer.WriteCloseTag` | src/Components/Ignitor/src/NodeSerializer.cs:166-168 | the closing tag only appends and ends a line |
| `NodeSerializer.WriteAttributesText` | src/Components/Ignitor/src/NodeSerializer.cs:114-125 | the attributes write exactly ` key` or ` key="value"` for each attribute, in order, and `="value"` appears only for a non-null value |
| `NodeSerializer.WriteEventsText` | src/Components/Ignitor/src/NodeSerializer.cs:150-157 | the events write exactly ` name(id)` for each event, in order |
| `NodeSerializer.WritePropertiesSectionText` | src/Components/Ignitor/src/NodeSerializer.cs:127-144 | the properties section is `  Properties: [...]` when there are properties and nothing otherwise |
| `NodeSerializer.WriteEventsSectionText` | src/Components/Ignitor/src/NodeSerializer.cs:146-159 | the events section is `  Events: [...]` when there are events and nothing otherwise |
| `NodeSerializer.WriteOpenTagText` | src/Components/Ignitor/src/NodeSerializer.cs:111-161 | the opening tag is one whole line: pending indentation, `<tag`, attributes, property and event sections, `>`, newline |
| `NodeSerializer.ChildrenInOrder` | src/Components/Ignitor/src/NodeSerializer.cs:171-177 | the index loop over the children is the in-order walk of the child list |
| `NodeSerializer.ElementShape` | src/Components/Ignitor/src/NodeSerializer.cs:109-169 | a new element prints its opening line at its own depth, its children one level deeper, and its closing line `</tag/>` back at its own depth |
| `NodeSerializer.ComponentShape` | src/Components/Ignitor/src/NodeSerializer.cs:179-187 | a new component prints the line `[Component ( id )]` at its own depth and then its children one level deeper |
| `NodeSerializer.ContainerShape` | src/Components/Ignitor/src/NodeSerializer.cs:82-86 | a bare container prints nothing of its own, only its children at the same depth |
| `NodeSerializer.LeafShape` | src/Components/Ignitor/src/NodeSerializer.cs:72-93 | a text, markup or unknown node prints exactly one line at the current depth: `T: text`, `M: escaped markup` or `--- UNKNOWN (type) ---` |
| `NodeSerializer.SerializeAllAppend` | src/Components/Ignitor/src/NodeSerializer.cs:44-50 | walking a concatenated list walks the first part and then the second, with the visited set carried over |
| `NodeSerializer.SerializeTwice` | src/Components/Ignitor/src/NodeSerializer.cs:54-58 | serializing the same node a second time changes nothing |
| `NodeSerializer.SerializeHive` | src/Components/Ignitor/src/NodeSerializer.cs:44-50 | every component of the hive is visited |
| `NodeSerializer.HivePrintsEachNodeOnce` | src/Components/Ignitor/src/NodeSerializer.cs:44-58 | over a whole hive, no node is printed twice, the printed nodes are exactly the visited ones, every component is printed, and the depth returns to zero |
| `NodeSerializer.HiveSkipsSeen` | src/Components/Ignitor/src/NodeSerializer.cs:54-58 | a hive entry whose node was already seen (a child component of an earlier one) contributes nothing |
| `NodeSerializer.NodeText` | src/Components/Ignitor/src/NodeSerializer.cs:22-30 | printed on its own, a text, markup or unknown node is its one line, unindented, followed by the newline; a component's text begins with its header line; an element's text begins with its opening line and ends with its closing line |
| `NodeSerializer.HiveText` | src/Components/Ignitor/src/NodeSerializer.cs:12-20 | an empty hive prints nothing; a hive's text begins with the text of its first component printed on its own, and a one-component hive prints exactly that text |
| `InferParameterBindingInfo.ParameterExistsInAnyRoute` | src/Mvc/Mvc.Core/src/ApplicationModels/InferParameterBindingInfoConvention.cs:109-126 | true exactly when some selector that has an attribute route has a template that declares the name; selectors without a route are skipped |
| `InferParameterBindingInfo.InferBindingSourceForParameter` | src/Mvc/Mvc.Core/src/ApplicationModels/InferParameterBindingInfoConvention.cs:94-107 | Body for a complex type whatever the routes say, otherwise Path when the name is in a route, otherwise Query |
| `InferParameterBindingInfo.InferParameterBindingSources` | src/Mvc/Mvc.Core/src/ApplicationModels/InferParameterBindingInfoConvention.cs:63-91 | every parameter is settled in place and in order, and afterwards every parameter has a source; the selectors are untouched; the error is raised exactly when two distinct parameters are bound from the body, and it is an invalid-operation error |
| `InferParameterBindingInfo.Apply` | src/Mvc/Mvc.Core/src/ApplicationModels/InferParameterBindingInfoConvention.cs:48-61 | a null action is an argument-null error on `action`; an action the convention skips comes back unchanged with no error; otherwise every parameter is settled as above, the selectors are untouched, and the error is an invalid-operation error raised exactly when more than one parameter ends up bound from the body |
| `InferParameterBindingInfo.SettledHasSource` | src/Mvc/Mvc.Core/src/ApplicationModels/InferParameterBindingInfoConvention.cs:65-76 | a source set earlier is never overwritten; a parameter without one gets the inferred source; an existing binding info keeps its other settings |
| `InferParameterBindingInfo.InferencePriority` | src/Mvc/Mvc.Core/src/ApplicationModels/InferParameterBindingInfoConvention.cs:15-21 | a complex type is always Body; a simple type is Path exactly when its name is a route value; nothing but Body, Path or Query is inferred |
| `InferParameterBindingInfo.SettledIdempotent` | src/Mvc/Mvc.Core/src/ApplicationModels/InferParameterBindingInfoConvention.cs:17 | settling an already settled parameter changes nothing |
| `InferParameterBindingInfo.UnroutedSelectorsIgnored` | src/Mvc/Mvc.Core/src/ApplicationModels/InferParameterBindingInfoConvention.cs:113-116 | adding selectors without an attribute route never changes whether a name is a route value |
| `InferParameterBindingInfo.CountBodyMultiple` | src/Mvc/Mvc.Core/src/ApplicationModels/InferParameterBindingInfoConvention.cs:78-79 | the count of body parameters exceeds one exactly when two distinct parameters are bound from the body |
| `InferParameterBindingInfo.CountBodyPositive` | src/Mvc/Mvc.Core/src/ApplicationModels/InferParameterBindingInfoConvention.cs:78 | the count of body parameters is positive exactly when some parameter is bound from the body |
| `WebHostOptions.Segments` | src/Hosting/Hosting/src/Internal/WebHostOptions.cs:72 | splitting on `;` yields at least one piece, and no piece contains `;` |
| `WebHostOptions.JoinSegments` | src/Hosting/Hosting/src/Internal/WebHostOptions.cs:72 | joining the pieces with `;` gives back the original text |
| `WebHostOptions.SegmentsJoin` | src/Hosting/Hosting/src/Internal/WebHostOptions.cs:72 | splitting a join of separator-free pieces gives back the pieces |
| `WebHostOptions.SegmentsConcat` | src/Hosting/Hosting/src/Internal/WebHostOptions.cs:72 | splitting `a;b` gives the pieces of `a` followed by the pieces of `b` |
| `WebHostOptions.Entries` | src/Hosting/Hosting/src/Internal/WebHostOptions.cs:72 | every entry is non-empty, trimmed and free of `;`, and there are no more entries than pieces |
| `WebHostOptions.EntriesSingleton` | src/Hosting/Hosting/src/Internal/WebHostOptions.cs:72 | one piece yields its trimmed text, or nothing when trimming leaves it empty; with `EntriesConcat` this fixes the entries of every list of pieces |
| `WebHostOptions.EntriesMembers` | src/Hosting/Hosting/src/Internal/WebHostOptions.cs:72 | a string is an entry exactly when it is non-empty and is the trimmed text of one of the pieces |
| `WebHostOptions.Split` | src/Hosting/Hosting/src/Internal/WebHostOptions.cs:70-74 | a null value gives no entries; every entry is non-empty, trimmed and free of `;` (which entries appear is stated by `EntriesSingleton`, `EntriesConcat` and `EntriesMembers`) |
| `WebHostOptions.SplitJoin` | src/Hosting/Hosting/src/Internal/WebHostOptions.cs:70-74 | splitting a `;`-join of clean entries gives back exactly those entries, in order |
| `WebHostOptions.EntriesOfEntries` | src/Hosting/Hosting/src/Internal/WebHostOptions.cs:72 | trimming and dropping empties leaves a list of clean entries unchanged |
| `WebHostOptions.EntriesConcat` | src/Hosting/Hosting/src/Internal/WebHostOptions.cs:72 | trimming and dropping empties distributes over concatenation |
| `WebHostOptions.SplitConcat` | src/Hosting/Hosting/src/Internal/WebHostOptions.cs:83 | the entries of `a;b` are the entries of `a` followed by the entries of `b` |
| `WebHostOptions.SplitWithApplication` | src/Hosting/Hosting/src/Internal/WebHostOptions.cs:76-84 | with a null or empty list, the result is the application name alone, as given |
| `WebHostOptions.ApplicationNameFirst` | src/Hosting/Hosting/src/Internal/WebHostOptions.cs:76-84 | with a configured list, the result is the application's entries followed by the list's entries; a clean application name is always first |
| `WebHostOptions.ExceptFrom` | src/Hosting/Hosting/src/Internal/WebHostOptions.cs:67 | every element yielded comes from the input, and its case-folded key was not yet seen |
| `WebHostOptions.ExceptFromDistinct` | src/Hosting/Hosting/src/Internal/WebHostOptions.cs:67 | no two elements yielded are equal ignoring case |
| `WebHostOptions.ExceptFromComplete` | src/Hosting/Hosting/src/Internal/WebHostOptions.cs:67 | every input element whose key was not already seen is represented, up to case, in the result |
| `WebHostOptions.Except` | src/Hosting/Hosting/src/Internal/WebHostOptions.cs:67 | the result is no longer than the first list, and each of its elements is in the first list and equals no element of the second ignoring case |
| `WebHostOptions.ExceptFromSingleton` | src/Hosting/Hosting/src/Internal/WebHostOptions.cs:67 | one element is yielded exactly when its key has not been seen |
| `WebHostOptions.ExceptFromConcat` | src/Hosting/Hosting/src/Internal/WebHostOptions.cs:67 | the result on two lists joined is the result on the first, then the result on the second with the first's keys counted as seen; so the order of the input is kept, and the first spelling of each key wins |
| `WebHostOptions.ExceptKeepsFirst` | src/Hosting/Hosting/src/Internal/WebHostOptions.cs:67 | an element at the head of the first list that equals no excluded element ignoring case is also at the head of the result |
| `WebHostOptions.ExceptCharacterization` | src/Hosting/Hosting/src/Internal/WebHostOptions.cs:65-68 | the ignore-case set difference keeps only elements of the first list; none equals an element of the second ignoring case; none repeats ignoring case; and every element of the first list that is not excluded is represented |
| `WebHostOptions.Lookup` | src/Hosting/Hosting/src/Internal/WebHostOptions.cs:19-33 | the `IConfiguration` indexer gives the configured value of a key that is present and null for one that is absent |
| `WebHostOptions.ShutdownTimeout` | src/Hosting/Hosting/src/Internal/WebHostOptions.cs:33-38 | a non-empty run of decimal digits whose value fits in an `int` gives that many seconds; anything else gives the 5-second default; the result is always between 0 and `int.MaxValue` |
| `WebHostOptions.New` | src/Hosting/Hosting/src/Internal/WebHostOptions.cs:12-39 | a null configuration is an argument-null error on `configuration` and a configuration never is; the application name is the configured one, or the fallback when none is configured; the startup assembly, environment, web root and content root are present exactly when configured and then equal the configured values; the startup list is the application-name split of the configured list; the exclusions are the entries of the configured exclusion list, and empty when none is configured; the timeout is the parsed configured value, and the default when none is configured |
| `WebHostOptions.NewStartupAssemblies` | src/Hosting/Hosting/src/Internal/WebHostOptions.cs:29-30 | the startup list is the application name alone when no list is configured or the configured list is empty; a clean application name comes first |
| `WebHostOptions.NewConfiguredStartupAssemblies` | src/Hosting/Hosting/src/Internal/WebHostOptions.cs:29-30 | with a non-empty list configured, the startup list is the application's entries followed by the configured ones |
| `WebHostOptions.GetFinalHostingStartupAssemblies` | src/Hosting/Hosting/src/Internal/WebHostOptions.cs:65-68 | every final assembly is a configured startup assembly and matches no excluded assembly ignoring case |
| `WebHostOptions.FinalStartupAssemblies` | src/Hosting/Hosting/src/Internal/WebHostOptions.cs:65-68 | the final list holds only configured startup assemblies, none of them excluded ignoring case, none repeated ignoring case, and loses no assembly that is not excluded; a first assembly that is not excluded stays first |
| `WebHostOptions.ApplicationNameLoaded` | src/Hosting/Hosting/src/Internal/WebHostOptions.cs:19-31 | with nothing excluded, a clean application name is in the final startup list, and it is the first entry there |
| `WebHostOptions.ShutdownTimeoutRoundTrip` | src/Hosting/Hosting/src/Internal/WebHostOptions.cs:33-37 | a timeout written as the decimal text of any `int` in range is read back exactly |
| `WebHostOptions.ShutdownTimeoutRejectsNonDigits` | src/Hosting/Hosting/src/Internal/WebHostOptions.cs:34-35 | for example, a missing or empty value, `-1`, `+7`, ` 7` and `7 ` all fall back to the default |
| `WebHostOptions.ShutdownTimeoutRange` | src/Hosting/Hosting/src/Internal/WebHostOptions.cs:35 | `2147483647` is accepted, `2147483648` falls back to the default, and leading zeros are allowed |
| `Decimal.NatToText` | src/Components/Ignitor/src/NodeSerializer.cs:155 | the invariant-culture text of a number is non-empty, holds only digits, has no leading zero, and denotes the number |
| `Decimal.IntToText` | src/Components/Ignitor/src/NodeSerializer.cs:182 | the invariant-culture text of an integer starts with `-` exactly for negatives, and its digits denote the magnitude with no leading zero (`0` alone is the text of zero) |
| `Decimal.ParseInt32Characterization` | src/Hosting/Hosting/src/Internal/WebHostOptions.cs:35 | parsing with no sign, white space or separators yields `n` exactly for the strings made of any number of `0` digits followed by the shortest decimal text of `n`, with `n` in the `int` range; every other string is rejected |
| `Decimal.ParseNatToText` | src/Hosting/Hosting/src/Internal/WebHostOptions.cs:35 | parsing the decimal text of an in-range number gives the number back |
| `Text.Trim` | src/Hosting/Hosting/src/Internal/WebHostOptions.cs:72 | a trimmed entry has no white space at either end and is no longer than the input |
| `Text.TrimIsMiddle` | src/Hosting/Hosting/src/Internal/WebHostOptions.cs:72 | trimming removes only white space, and only from the two ends: the result is a contiguous middle of the input |
| `Text.Replace` | src/Components/Ignitor/src/NodeSerializer.cs:100 | every character of the result comes from the input text or from the replacement |
| `Text.ReplaceWithoutOccurrence` | src/Components/Ignitor/src/NodeSerializer.cs:100 | a text in which the old value does not occur is returned unchanged |
| `Text.ReplaceFirst` | src/Components/Ignitor/src/NodeSerializer.cs:100 | the leftmost occurrence of the old value becomes the new value, the text before it is kept, and the scan resumes after it; with `ReplaceWithoutOccurrence` this fixes the result on every text |
| `Text.ReplaceRemovesAll` | src/Components/Ignitor/src/NodeSerializer.cs:100 | when no character of the old value appears in the new value, the old value occurs nowhere in the result of the replacement |
| `Text.FoldCase` | src/Hosting/Hosting/src/Internal/WebHostOptions.cs:67 | the comparison key has the input's length, holds no lower-case ASCII letter, and differs from the input only where a lower-case ASCII letter became its upper-case form |
| `Text.EqualsIgnoreCaseCharacterization` | src/Hosting/Hosting/src/Internal/WebHostOptions.cs:67 | two strings are equal ignoring case exactly when they have the same length and each pair of characters is equal or is the two cases of one ASCII letter |

## Left out

- The `Serializer` constructor's null-writer check (`NodeSerializer.cs` lines 39-42) is left out. The writer is always a fresh `StringWriter` created by the two public entry points, so the check cannot fail.
- `Environment.NewLine` is a parameter of the serializer: a non-empty string.
- `Object.ToString()` of attribute and property values is taken as given text. `GetType().ToString()` of an unknown node is taken as given text too.
- Node identity: a `HashSet<Node>` compares references. The model gives each node an explicit `NodeId` and assumes that distinct nodes have distinct ids.
- `NodeSerializer.EscapeMarkup`: the absence of the newline is proved only for the two platform newlines, `\n` and `\r\n`. The proof needs the newline to share no character with the four-character escape.
- The model-metadata provider and the route template parser are oracles in `Services`. `IsComplexType` and `TemplateParser.Parse(...).GetParameter(name) != null` are not part of this model.
- `ActionAttributeRouteModel.FlattenSelectors` is not part of this model. An action carries its flattened selectors directly.
- `parameter.Action` is taken to be the action being processed, which is how `ActionModel` builds its parameters.
- `BindingInfo` is reduced to its binding source plus `BinderModelName`. The model name stands for every other setting the convention leaves untouched.
- Exception messages are not modelled, including the list of display names of the body parameters. Only the exception kind is kept, plus the parameter name of an argument-null error.
- `ShouldApply` is a caller-supplied predicate, because it is a virtual hook.
- The `InferParameterBindingInfoConvention` constructor's null check on the metadata provider is left out, because the provider is a given oracle.
- `WebHostOptions` boolean flags are left out: `DetailedErrors`, `CaptureStartupErrors`, `PreventHostingStartup` and `SuppressStatusMessages`. They are read through `WebHostUtilities.ParseBool`, which is not part of this model.
- `WebHostDefaults` key names are not part of this model. The configuration keys form an abstract datatype, and `IConfiguration` is a finite map from key to value.
- `TimeSpan` is modelled as whole seconds.
- `int.TryParse` compatibility: .NET also accepts trailing NUL characters after the digits. That quirk is not modelled.
- `StringComparer.OrdinalIgnoreCase`: modelled as ASCII upper-case folding. The full Unicode simple case mapping is not modelled.
