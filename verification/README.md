# Transcript keyword notifier

A model, in Dafny, of the one piece of logic in a small FastAPI service: the
`/webhook` handler in `main.py`. The handler receives a speech-transcript
payload, looks at the text of its **last** segment, lower-cases it, and
answers `{"message": ...}` with the reply of the first keyword that occurs
in it, in the fixed order tired, break, stress(ed), hungry, help, thank.
When no keyword occurs it echoes the lower-cased text as
`Received transcript: '<text>'`. When the payload has no `segments` list,
or an empty one, it answers `No transcript segments found`.

Layout:

- `wrappers.dfy` — `Option`, standing in for a JSON key that may be absent.
- `text.dfy` — module `Text`: ASCII lower-casing (`Lower`) and substring
  containment (`Contains`, Python's `sub in s`), with their laws.
- `notifier.dfy` — module `Notifier`: the payload datatypes
  (`Segment`, `Transcript`, `Notification`), the eight reply strings,
  the if/elif chain `Respond` and the handler `Webhook`.
- `rules.dfy` — module `RuleTable`: the same chain written as an ordered
  table of (keywords, message) rules scanned first-match-wins
  (`FirstMatch`), the proof that the chain is that scan, and methods that
  compute the handler's answer by scanning the table with loops.
- `properties.dfy` — module `NotifierProperties`: priority, the exact
  condition for the echo, "only the last segment matters",
  case-insensitivity, the missing-`text` case, and worked examples.

The handler is a pure function, so it is deterministic by construction:
`Webhook` is a Dafny function. The `uid` argument is accepted and, as in
the handler, ignored.

## Model

| member | source | states |
|---|---|---|
| Text.LowerChar | main.py:32 | lower-casing one character never leaves an upper-case letter |
| Text.Lower | main.py:32 | lower-casing keeps the length, maps each character on its own (A-Z to a-z, all else unchanged) and leaves no upper-case letter |
| Text.LowerIdempotent | main.py:32 | lower-casing twice is lower-casing once |
| Text.LowerFixesExactlyLowerCase | main.py:32 | lower-casing leaves a text unchanged if and only if it has no upper-case letter |
| Text.LowerEqualIffCaseVariants | main.py:32 | two texts lower-case to the same text if and only if they differ only in letter case |
| Text.LowerAppend | main.py:32 | lower-casing a concatenation is concatenating the lower-cased parts |
| Text.ContainsWitness | main.py:35 | a contained string occurs at some in-range position |
| Text.ContainsEmpty | main.py:35-46 | every text contains "" and "" contains no non-empty string, so no keyword matches empty text |
| Text.ContainsTransitive | main.py:39 | an occurrence inside an occurrence is an occurrence |
| Text.ContainedCharsOccur | main.py:35-46 | every character of a contained string is a character of the text |
| Text.AbsentCharExcludes | main.py:35-46 | a string with a character the text lacks is not contained in it |
| Text.ContainsAcrossSpace | main.py:35-46 | a string found in `a + " " + b` is found in `a`, in `b`, or has a space in it |
| Notifier.Respond | main.py:35-48 | the chain's reply is always one of the six keyword replies or the echo of the text |
| Notifier.Webhook | main.py:16-50 | the reply is the no-segments message if and only if `segments` is absent or empty; otherwise it is a keyword reply or has the echo's shape |
| Notifier.FallbackNotCanned | main.py:47-50 | the echo has the echo's shape and differs from every keyword reply and from the no-segments message |
| RuleTable.FiresOnRules | main.py:35-46 | rule i of the table fires exactly on the i-th test of the chain |
| RuleTable.FirstMatchAtFirstFiring | main.py:35-48 | the table scan answers with the message of the first rule that fires, and with nothing when none fires |
| RuleTable.FirstFiring | main.py:35-48 | every text has a first firing rule index (or none) |
| RuleTable.FirstMatchPriority | main.py:35-48 | with distinct messages, rule i's message is the scan's answer if and only if rule i fires and no earlier rule does |
| RuleTable.RulesHaveDistinctMessages | main.py:36-46 | the six keyword replies are pairwise different |
| RuleTable.RespondIsFirstMatch | main.py:35-48 | the if/elif chain equals the first-match scan of the rule table, with the echo as default |
| RuleTable.RuleFires | main.py:39 | the loop over a rule's keywords answers true exactly when the rule fires |
| RuleTable.ScanRules | main.py:35-46 | the loop returns the index of the first firing rule, or the table length when none fires |
| RuleTable.WebhookByTable | main.py:30-50 | computing the reply by scanning the table gives exactly the handler's reply |
| NotifierProperties.StressedContainsStress | main.py:39 | "stressed" implies "stress", so the third test equals containing "stress" |
| NotifierProperties.FiresIffKeyword | main.py:35-46 | rule i fires exactly when the text contains the i-th keyword of tired, break, stress, hungry, help, thank |
| NotifierProperties.RespondPriority | main.py:35-46 | reply i is given if and only if keyword i occurs and no earlier keyword does |
| NotifierProperties.RespondFallbackIff | main.py:47-48 | the echo is given if and only if none of the six keywords occurs |
| NotifierProperties.MentionsSomeKeyword | main.py:35-46 | mentioning a keyword is containing the keyword at some index of the list |
| NotifierProperties.WebhookPriority | main.py:31-46 | for a payload with segments, reply i is given if and only if the lower-cased last text holds keyword i and no earlier one |
| NotifierProperties.TiredAlwaysWins | main.py:35-36 | a last text holding "tired" gets the tired reply whatever else it holds |
| NotifierProperties.WebhookFallbackIff | main.py:31-48 | for a payload with segments, the reply echoes the lower-cased last text if and only if it holds no keyword |
| NotifierProperties.OnlyLastSegmentMatters | main.py:31 | putting any segments in front of a non-empty list leaves the reply unchanged |
| NotifierProperties.MissingTextEchoesEmpty | main.py:32 | a last segment with no `text` is answered exactly `Received transcript: ''` |
| NotifierProperties.CaseInsensitive | main.py:32 | last texts that differ only in letter case get the same reply |
| NotifierProperties.UidIgnored | main.py:17 | the user identifier does not affect the reply |
| NotifierProperties.WebhookAnswersLatest | main.py:30-32 | for a payload with segments, the reply is the chain's answer to the lower-cased last text |
| NotifierProperties.RespondToHappy | main.py:47-48 | "i am happy" holds no keyword and is echoed |
| NotifierProperties.RespondToStressed | main.py:39-40 | "i'm stressed" gets the stress reply |
| NotifierProperties.WeatherHasNoKeyword | main.py:35-46 | "nice weather" holds none of the keywords |
| NotifierProperties.RespondToWeather | main.py:47-48 | "nice weather" is echoed |
| NotifierProperties.ExampleLastSegmentOnly | main.py:31-48 | segments "I am tired" then "I am happy" give `Received transcript: 'i am happy'`, not the tired reply |
| NotifierProperties.ExampleUpperCaseStress | main.py:32-40 | "I'm STRESSED" gets the stress reply |
| NotifierProperties.ExampleNoKeyword | main.py:32-48 | "Nice weather" is echoed in lower case, as `Received transcript: 'nice weather'` |
| NotifierProperties.NoKeywordFromLetters | main.py:35-46 | a text lacking one letter of each keyword holds no keyword and no "stressed" |
| NotifierProperties.NoKeywordAcrossSpace | main.py:35-46 | joining two keyword-free texts with a space gives a keyword-free text |

## Left out

- Text.Lower: maps only the ASCII letters A-Z to a-z, because Python's `str.lower` applies the full Unicode case mapping, a library table the model does not carry; texts with non-ASCII letters may lower-case differently.
- FastAPI application, CORS middleware and the route decorator (main.py:1-16): framework wiring with no computation.
- The `print(transcript)` call (main.py:18): a diagnostic side effect, not part of the reply.
- The uvicorn server launch (main.py:53-56): I/O plumbing.
- Request parsing and JSON serialisation of the reply: done by the framework; the model takes the parsed payload and returns the `message` field.
- Ill-typed payloads: a non-list `segments` other than `""` or `{}`, a segment that is not an object, or a `text` that is `null` or not a string, all of which make the handler raise. The two empty non-list values `""` and `{}` fail the length test at main.py:30 and get the no-segments message, the same answer the model gives an empty list. The model covers only the typed shape, an optional list of segments each with an optional string `text`.
- Concrete examples with long texts: the verifier's cost of lower-casing a literal grows steeply with its length, so the worked examples use texts of at most twelve characters; the general lemmas cover every text.
