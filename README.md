# MQTT topic filters of rxjs-mqtt, in Dafny

The client lets observers subscribe to MQTT topic filters. Filters use
`+` for one level and `#` for all remaining levels. src/topic.ts has the
two functions involved:

- **`validate`** checks that a filter is well formed. It must be
  non-empty and must match one anchored regular expression.
- **`toFilter`** compiles a filter into a JavaScript `RegExp`. It
  escapes the ten characters `[ \ ^ $ . | ? * ( )`, replaces the first
  `+` with `[^/]*` and the first `#` with `.*`, and anchors the result
  with `^` and `$`. `observe` keeps each incoming message whose topic
  passes the compiled filter's `test`.

The model has seven modules, one concept each:

- `Wrappers` (wrappers.dfy): the `Option` type for results that can
  fail, and `Cons`, which puts an element in front of a successful
  sequence.
- `Strings` (strings.dfy): counting and first occurrence of a character.
- `TopicLevels` (levels.dfy): splitting a topic string into its
  `/`-separated levels, and joining them back.
- `TopicValidate` (validate.dfy): `validate` written part by part from
  its regular expression. It is proved equal, in both directions, to the
  level-wise grammar of section 4.7.1 of MQTT 3.1.1.
- `TopicFilter` (filter.dfy): `toFilter` as the exact source text it
  gives to `new RegExp`: escaping, the two first-occurrence
  replacements and the anchors.
- `FilterRegex` (regex.dfy): the part of JavaScript regular expressions
  that this text uses, parsed into tokens, with a full-match relation.
  No flags are given, so `^`/`$` anchor at the ends of the topic, case
  matters, and `.` does not match `\n`, `\r`, U+2028 or U+2029.
- `FilterSemantics` (semantics.dfy): what `test` on the compiled filter
  decides. The main theorem, `AgreesWithMqttExceptParentLevel`, covers
  every valid filter with at most one `+` and without `{`, `}` and `]`,
  and every topic without a line terminator. For those, the compiled
  filter gives exactly the MQTT level-wise answer, except on one case:
  a trailing `/#` does not match the parent level itself (`a/#` does not
  match `a`).

The code differs from MQTT 3.1.1 matching, or from what a caller may
expect, in the following behaviours. The model follows the code:

- `toFilter` accepts any string without checking it, so `ToFilter` is
  total. `new RegExp` throws on some strings, including valid filters
  that start with a brace quantifier: `{2}` passes `validate` and
  compiles to the text `^{2}$` (`LeadingBraceQuantifier`), where the
  quantifier has nothing to repeat, so `new RegExp`, and with it
  `observe` (src/rx-mqtt-client.ts:82), throws a `SyntaxError`. See also
  "## Left out".
- Only the first `+` and the first `#` are rewritten. A later `+` stays
  in the regular expression as written.
- `a/#` does not match `a`. Section 4.7.1.2 of MQTT 3.1.1 says it
  should. `MultiLevelSkipsParent` proves both facts.
- `{` and `}` are not escaped, so `{n}` in a filter becomes a
  quantifier. `a{2}` is a valid filter and compiles to `^a{2}$`
  (`BracesPassThrough`), which matches `aa` and does not match `a{2}`.
  The model stops at the text here: `Parse` gives `None` for braces.
- `.*` does not match a line terminator, so `a/#` rejects `a/x\ny`,
  which MQTT's level-by-level matching accepts
  (`MultiLevelStopsAtLineTerminator`).

`MqttMatches` follows section 4.7.1 of MQTT 3.1.1 only. It leaves out
the rule of section 4.7.2 that a filter starting with `#` or `+` does
not match a topic name starting with `$`. The compiled `#` does match `$SYS/x`
(`HashAloneExample`).

## Model

| member | source | states |
|---|---|---|
| TopicValidate.Validate | src/topic.ts:1-3 | renders `validate`: `!!topic` (the string is non-empty) and the anchored regular expression of line 2; its meaning is stated by `ValidateIffLevels` |
| TopicValidate.MatchesFilterSyntax | src/topic.ts:2 | renders the regular expression of line 2: the alternative `#`, or a first level, the repeated group of further levels and the optional trailer; `ValidateSound` and `ValidateComplete` relate it to the level grammar |
| TopicValidate.ValidateIffLevels | src/topic.ts:1-3 | a string passes `validate` exactly when it is non-empty and every `/`-separated level is a literal without `+`, `#` and `/`, or exactly `+`; the last level may instead be `#` |
| TopicValidate.ValidateSound | src/topic.ts:2 | every string the expression accepts has valid levels |
| TopicValidate.ValidateComplete | src/topic.ts:2 | every non-empty string with valid levels is accepted by the expression |
| TopicValidate.MoreLevelsSound | src/topic.ts:2 | the repeated group of further levels accepts only a `/` followed by levels that are literals or `+` |
| TopicValidate.MoreLevelsComplete | src/topic.ts:2 | the repeated group accepts every `/` followed by levels that are literals or `+` |
| TopicValidate.LevelsSyntaxSound | src/topic.ts:2 | a first level followed by the repeated group has only literal or `+` levels |
| TopicValidate.LevelsSyntaxComplete | src/topic.ts:2 | a string whose levels are all literals or `+` splits into a first level and the repeated group |
| TopicValidate.TrailerSound | src/topic.ts:2 | the optional trailer (a run of `/`, or `/#`) adds only empty levels or a final `#` |
| TopicValidate.PlusFillsLevel | src/topic.ts:2 | in a valid filter each `+` has a separator or an end of the filter on both sides |
| TopicValidate.HashEndsFilter | src/topic.ts:2 | in a valid filter a `#` is the last character, and it stands first or after a `/` |
| TopicValidate.HashAtMostOnce | src/topic.ts:2 | a valid filter holds at most one `#` |
| TopicValidate.EmptyIsInvalid | src/topic.ts:2 | `!!topic` rejects the empty string |
| TopicValidate.HashAloneIsValid | src/topic.ts:2 | `#` is valid |
| TopicValidate.PlusLevelIsValid | src/topic.ts:2 | `a/+/c` is valid |
| TopicValidate.TrailingHashIsValid | src/topic.ts:2 | `a/#` is valid |
| TopicValidate.TwoPlusLevelsAreValid | src/topic.ts:2 | `+/+` is valid |
| TopicValidate.PlusInsideLevelIsInvalid | src/topic.ts:2 | `a+b` is invalid |
| TopicValidate.InnerHashIsInvalid | src/topic.ts:2 | `a/#/b` is invalid |
| TopicFilter.Escape | src/topic.ts:7 | renders the global replace of line 7: a backslash before each of the ten escaped characters, every other character kept; `EscapeIffUnescape` gives its inverse |
| TopicFilter.EscapeIffUnescape | src/topic.ts:7 | the escaped text reads back to the original, and only the escape of a string reads back to it, so escaping loses nothing |
| TopicFilter.UnescapeEscape | src/topic.ts:7 | reading back the escaped text gives the original string |
| TopicFilter.EscapeUnchangedIff | src/topic.ts:7 | escaping leaves a string unchanged exactly when it contains none of the ten escaped characters |
| TopicFilter.EscapeKeepsCount | src/topic.ts:7 | escaping keeps the number of occurrences of every character it does not escape, `+` and `#` included |
| TopicFilter.EscapeConcat | src/topic.ts:7 | escaping works character by character: the escape of a concatenation is the concatenation of the escapes |
| TopicFilter.ReplaceFirst | src/topic.ts:8-9 | renders `String.prototype.replace` with a one-character string pattern and a replacement without `$`: only the first occurrence is replaced; `ReplaceFirstSplice` states where |
| TopicFilter.ReplaceFirstSplice | src/topic.ts:8-9 | a string replace puts the replacement in place of the first occurrence only and keeps the rest, later occurrences included; a string without the target is returned unchanged |
| TopicFilter.ReplaceFirstCount | src/topic.ts:8-9 | a string replace removes one occurrence of the target and adds the replacement's characters, and only when the target occurs |
| TopicFilter.FilterBody | src/topic.ts:6-9 | renders the chain of three `replace` calls, in their order: escape, then the first `+`, then the first `#`; `FilterBodyIsTransduced` restates it as one pass |
| TopicFilter.FilterBodyPlusCount | src/topic.ts:6-9 | the body holds one `+` fewer than the filter, or none when the filter has none: every `+` after the first stays |
| TopicFilter.FilterBodyHashCount | src/topic.ts:6-9 | the body holds one `#` fewer than the filter, or none when the filter has none: every `#` after the first stays |
| TopicFilter.FilterBodyIsTransduced | src/topic.ts:6-9 | the three replace calls equal one left-to-right pass that escapes each character, except that the first `+` becomes `[^/]*` and the first `#` becomes `.*` |
| TopicFilter.ToFilter | src/topic.ts:11 | the source text starts with `^`, ends with `$`, and is at least two characters longer than the filter |
| TopicFilter.ToFilterWithoutWildcards | src/topic.ts:6-11 | a filter without `+` and `#` compiles to its escape between `^` and `$` |
| TopicFilter.ToFilterPlainTopic | src/topic.ts:6-11 | a filter without wildcards or escaped characters compiles to itself between `^` and `$` |
| TopicFilter.FilterBodyFirstPlus | src/topic.ts:6-9 | for any filter `p+q` with no `+` in `p`: the body is the escape of `p`, then `[^/]*`, then the escape of `q`, with every `+` of `q` left as written, before the `#` step |
| FilterRegex.Parse | src/topic.ts:11 | renders how `new RegExp` reads the body it is given, for the fragment `toFilter` writes: escaped and plain characters, `[^/]*` and `.*`; any other syntax character gives `None`; `ToFilterParses` states what it reads from a compiled filter |
| FilterRegex.Matches | src/topic.ts:11 | renders the language of the parsed expression without flags: each literal its own character, case-sensitively, `[^/]*` any run without `/`, `.*` any run without a line terminator; the lemmas beside it characterise each token shape |
| FilterRegex.Test | src/rx-mqtt-client.ts:91 | renders `topicFilter.test(message.topic)` on the anchored source `^body$` that line 11 of src/topic.ts builds; `None` outside the modelled fragment; `AgreesWithMqttExceptParentLevel` states its answer |
| FilterRegex.MatchesLiterals | src/topic.ts:11 | literal characters between the anchors match exactly the identical topic |
| FilterRegex.MatchesAnyStarAlone | src/topic.ts:9 | `.*` alone matches exactly the strings without a line terminator |
| FilterRegex.MatchesNotSlashStarThenLiterals | src/topic.ts:8 | `[^/]*` followed by literals matches a `/`-free run followed by exactly those literals |
| FilterSemantics.ToFilterParses | src/topic.ts:6-11 | for a filter with at most one `+` and no `{`, `}`, `]`, the source text parses as the filter's tokens: literals, `[^/]*` for the first `+`, `.*` for the first `#` |
| FilterSemantics.MatchesWithoutWildcards | src/topic.ts:6-11 | a filter without `+`, `#`, `{`, `}` and `]` matches exactly the identical topic, case-sensitively |
| FilterSemantics.MatchesSinglePlus | src/topic.ts:8-11 | a filter `p+q`, with `p` and `q` free of `+`, `#`, `{`, `}` and `]`, matches exactly the topics that start with `p`, end with `q` and have no `/` in between |
| FilterSemantics.SinglePlusTakesLevel | src/topic.ts:8-11 | `p+q`, with `p` and `q` free of `+`, `#`, `{`, `}` and `]`, matches `p`, then any `/`-free run, the empty run included, then `q` |
| FilterSemantics.SinglePlusStopsAtSeparator | src/topic.ts:8-11 | `p+q`, with `p` and `q` free of `+`, `#`, `{`, `}` and `]`, rejects every topic with a `/` between `p` and `q` |
| FilterSemantics.MatchesTrailingHash | src/topic.ts:9-11 | a filter `p#`, with `p` free of `+`, `#`, `{`, `}` and `]`, matches exactly the topics that start with `p` and have no line terminator after it |
| FilterSemantics.CompiledVsMqtt | src/topic.ts:8-11 | for valid filter levels and at least one topic level (splitting always gives one), level by level, the compiled reading differs from MQTT matching only where a final `#` would match the parent level |
| FilterSemantics.LevelwiseMatch | src/topic.ts:6-11 | for a valid filter and a topic without line terminators, the filter's tokens match a topic exactly when the topic's levels match the filter's levels one by one: literal for literal, any level for `+`, the rest for a final `#` after a `/` |
| FilterSemantics.AgreesWithMqttExceptParentLevel | src/topic.ts:5-12 | for a valid filter with at most one `+` and no `{`, `}`, `]`, and a topic without line terminators, `test` gives the MQTT level-wise answer, except that a trailing `/#` does not match the parent level |
| FilterSemantics.SingleLevelTakesOneLevel | src/topic.ts:8-11 | `sensors/+/temp` matches `sensors/kitchen/temp` |
| FilterSemantics.SingleLevelTakesNoMore | src/topic.ts:8-11 | `sensors/+/temp` does not match `sensors/kitchen/humidity/temp` |
| FilterSemantics.MultiLevelTakesBelow | src/topic.ts:9-11 | `a/#` matches `a/` and `a/b/c` |
| FilterSemantics.MultiLevelSkipsParent | src/topic.ts:9-11 | `a/#` does not match `a`, although MQTT level-wise matching accepts it |
| FilterSemantics.MultiLevelStopsAtLineTerminator | src/topic.ts:9-11 | `a/#` does not match `a/x\ny`, although MQTT level-wise matching accepts it |
| FilterSemantics.HashAloneExample | src/topic.ts:9-11 | `#` matches the empty topic, `a/b` and `$SYS/x`, but not a topic containing `\n` |
| FilterSemantics.CaseSensitiveExample | src/topic.ts:11 | `sensors/temp` matches itself but not `Sensors/temp` |
| FilterSemantics.BracesPassThrough | src/topic.ts:7-11 | `a{2}` is a valid filter, and its source text `^a{2}$` keeps the braces unescaped |
| FilterSemantics.LeadingBraceQuantifier | src/topic.ts:1-11 | `{2}` is a valid filter, and its source text `^{2}$` puts the brace quantifier right after `^` |

## Left out

- src/rx-mqtt-client.ts is not part of this model. It wires mqtt.js
  event handlers into RxJS subjects, intercepts `subscribe` and
  `unsubscribe` through a `Proxy`, and passes `publish` and `disconnect`
  through. That is library plumbing with no logic of its own. The
  `observe` lifecycle comes entirely from RxJS operators (subscribe on
  first use, unsubscribe on last, replay of the last value), and those
  are not part of this model. The model keeps only the `test` call
  `observe` makes, as `FilterRegex.Test`.
- fetch-mqtt.ts is not part of this model. It is a build script that
  reads and writes files and fetches over the network.
- Full JavaScript regular expression semantics. Outside the modelled
  fragment, `Parse` answers `None` and the model says nothing about
  what matches. This covers:
  - a filter with a second `+`. That `+` becomes a quantifier on the
    character before it, and right after `[^/]*` or `.*` it makes `new RegExp`
    throw a `SyntaxError`. In a valid filter the character before a second
    `+` is always `/`, so `a/+/+` compiles to `^a/[^/]*/+$`: it matches
    `a/x/` and `a/x//` but not `a/x/y`;
  - unescaped `{`, `}` and `]`.
  At the level of text, `FilterBodyPlusCount` and `FilterBodyFirstPlus`
  state what happens to a second `+`.
- The exception `new RegExp` may throw is not modelled: `ToFilter`
  returns the source text it would be given.
- Characters: JavaScript strings are sequences of UTF-16 code units, and
  the model uses Dafny's `char`. A topic with a character outside the
  Basic Multilingual Plane is one character here and two code units
  there. Both `.*` and `[^/]*` take whole runs, so this matters only for
  unpaired surrogates, which are not modelled.
- `validate` is called with strings only. `!!topic` on `undefined` or
  `null` is not modelled.
- AgreesWithMqttExceptParentLevel: stated only for topics without a line
  terminator and for filters with at most one `+` and no `{`, `}`, `]`.
  For a topic with a line terminator after the prefix of a trailing `#`,
  `MatchesTrailingHash` and `HashAloneExample` show that the compiled
  filter rejects it.
