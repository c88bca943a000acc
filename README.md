# PagerDuty notification channel: target parsing and payload building

This project models the two pure parts of Superset's PagerDuty report
notifier, `PagerDutyNotification` in
`superset/reports/notifications/pagerduty.py`, and proves properties of them.

- **Recipient-target parsing** (`_get_payload_info`). The notifier reads the
  `"target"` value from the recipient's decoded JSON configuration. If the
  value is a string, it splits it on every single `,`, `;` or whitespace
  character, the way `re.split(r",|\s|;", ...)` does. It then strips each
  field and keeps the non-empty ones, in order and with duplicates.
  (`RecipientTargets`, `targets.dfy`)
- **Payload building** (`_get_pagerduty_payload`). The notifier builds a
  fixed Events API v2 `trigger` event whose only variable part is the routing
  key from the application configuration. Any exception yields the sentinel
  `False`. (`PagerDutyPayload`, `payload.dfy`)

Supporting modules: `Wrappers` (`Option`, `Result`) and `Json` (a decoded
JSON value).

How the model is built:

- Whitespace is `IsSpace`: the Unicode whitespace set that Python uses both
  for `\s` in a `str` pattern and for the argument-less `str.strip()`.
  Because the two sets are equal, the split fields contain no whitespace and
  `strip()` never changes them (`SplitFieldsStripFixed`).
- The reference meaning of "the maximal delimiter-free runs of `s`, in
  order" is `IsRunDecomposition(s, gaps, toks)`. It says `s` is
  `gaps[0] + toks[0] + gaps[1] + ... + toks[n-1] + gaps[n]`, where:
  - every gap consists only of delimiters;
  - every gap between two runs is non-empty;
  - every run is non-empty and contains no delimiter.

  Every string has such a decomposition, and each one has exactly the runs
  that the parser returns.
- The configuration is taken already decoded, as a `Json.Value`.
  - A top-level value that is not an object fails with `NotAnObject`. Python
    raises `TypeError` when it subscripts such a value.
  - An object without `"target"` fails with `MissingTarget`. Python raises
    `KeyError`.
  - A `"target"` value that is not a string gives the empty list.
- The routing key is a parameter, `Option<Setting>`. `None` means the
  setting is absent. The lookup at line 62 sits inside the `try`, so a
  missing setting also ends in the `except` branch. `Unserialisable` stands
  for a value that `json.dumps` rejects. Both cases give `None`, which models
  the `False` sentinel.

The model follows the code as written:

- A missing `"target"` key raises `KeyError` at lines 31-33, so it is the
  lookup failure `MissingTarget`, not an empty list.
- A failed build returns `False` from the `except` branch at lines 78-81.
  The model gives `None` for it.
- The dedup key at line 63 is a fixed constant string.

## Model

| member | source | states |
|---|---|---|
| RecipientTargets.IsDelimiter | superset/reports/notifications/pagerduty.py:36 | the characters the split pattern matches: a comma, a semicolon, or a character in `IsSpace`, Python's Unicode whitespace set for `\s`; its consequences for the fields are stated by `SplitFieldsDelimiterFree` and `SplitFieldsStripFixed` |
| RecipientTargets.Delimiters | superset/reports/notifications/pagerduty.py:36 | the characters of the input that the pattern matches, in order; every one of them is a delimiter |
| RecipientTargets.SplitFields | superset/reports/notifications/pagerduty.py:36 | `re.split` gives exactly one more field than `s` has delimiter characters, so adjacent delimiters and delimiters at either end produce empty fields |
| RecipientTargets.SplitFieldsDelimiterFree | superset/reports/notifications/pagerduty.py:36 | no split field contains `,`, `;` or whitespace |
| RecipientTargets.RestoreSplitFields | superset/reports/notifications/pagerduty.py:36 | putting the fields back together, with the original delimiter characters between them, gives back the input: splitting loses nothing |
| RecipientTargets.SplitFieldsRestore | superset/reports/notifications/pagerduty.py:36 | the converse round trip: delimiter-free fields joined by single delimiter characters split back into exactly those fields |
| RecipientTargets.SplitFieldsOfWord | superset/reports/notifications/pagerduty.py:36 | a string without delimiters is one field, itself |
| RecipientTargets.SplitFieldsAtDelimiter | superset/reports/notifications/pagerduty.py:36 | splitting `a + [d] + b` at a delimiter `d` gives the fields of `a` followed by the fields of `b` |
| RecipientTargets.Strip | superset/reports/notifications/pagerduty.py:37 | `x.strip()` with no argument: the result is no longer than `x`; `StripLeadingSpec`, `StripTrailingSpec` and `StripSpec` state that exactly the leading and trailing `IsSpace` characters are removed |
| RecipientTargets.StripLeading | superset/reports/notifications/pagerduty.py:37 | the leading half of `strip()`; never lengthens its input (its full contract is `StripLeadingSpec`) |
| RecipientTargets.StripTrailing | superset/reports/notifications/pagerduty.py:37 | the trailing half of `strip()`; never lengthens its input (its full contract is `StripTrailingSpec`) |
| RecipientTargets.StripLeadingSpec | superset/reports/notifications/pagerduty.py:37 | the leading part of `strip()` removes the longest whitespace prefix and nothing else |
| RecipientTargets.StripTrailingSpec | superset/reports/notifications/pagerduty.py:37 | the trailing part of `strip()` removes the longest whitespace suffix and nothing else |
| RecipientTargets.StripSpec | superset/reports/notifications/pagerduty.py:37 | `strip()` gives the empty string exactly when the input is all whitespace; otherwise the result neither starts nor ends with whitespace; a string without whitespace comes back unchanged |
| RecipientTargets.FilterNonEmpty | superset/reports/notifications/pagerduty.py:37 | the comprehension keeps at most as many values as there are fields, and none of them is empty |
| RecipientTargets.FilterNonEmptyStripped | superset/reports/notifications/pagerduty.py:37 | every kept value is the stripped form of some field |
| RecipientTargets.FilterNonEmptyAppend | superset/reports/notifications/pagerduty.py:37 | the comprehension works field by field: on a concatenation it gives the concatenation of its results |
| RecipientTargets.SplitFieldsStripFixed | superset/reports/notifications/pagerduty.py:36-37 | `strip()` leaves every split field unchanged |
| RecipientTargets.ParseTargets | superset/reports/notifications/pagerduty.py:36-37 | the string branch: split, strip, keep the non-empty values; at most one more target than there are delimiter characters, none of them empty; `ParseTargetsWellFormed`, `ParseTargetsAreMaximalRuns` and `RunDecompositionUnique` characterise the result as the maximal delimiter-free runs of the input |
| RecipientTargets.ParseTargetsWellFormed | superset/reports/notifications/pagerduty.py:36-37 | every returned target is non-empty, contains no `,`, `;` or whitespace, and is unchanged by `strip()`; there are at most as many targets as delimiter characters plus one |
| RecipientTargets.RunDecompositionOf | superset/reports/notifications/pagerduty.py:36-37 | every string decomposes into maximal delimiter-free runs separated by delimiter blocks |
| RecipientTargets.RunDecompositionUnique | superset/reports/notifications/pagerduty.py:36-37 | for any decomposition of the input into maximal delimiter-free runs, the parser returns exactly those runs, in order and with duplicates |
| RecipientTargets.ParseTargetsAreMaximalRuns | superset/reports/notifications/pagerduty.py:36-37 | the returned targets are the maximal delimiter-free runs of the input, in their original order |
| RecipientTargets.ParseTargetsEmptyIff | superset/reports/notifications/pagerduty.py:35-37 | the string branch returns the empty list, and raises no error, exactly when the string is empty or consists only of delimiters |
| RecipientTargets.ParseTargetsJoin | superset/reports/notifications/pagerduty.py:36-37 | non-empty delimiter-free targets joined by any non-empty block of delimiters parse back into exactly those targets |
| RecipientTargets.ParseTargetsIdempotent | superset/reports/notifications/pagerduty.py:36-37 | joining the result with any non-empty block of delimiters and parsing again returns the same list |
| RecipientTargets.ParseTargetsIdempotentCommaSemicolonSpace | superset/reports/notifications/pagerduty.py:36-37 | the same for `","`, `";"` and `" "` as separators |
| RecipientTargets.ParseTargetsExample | superset/reports/notifications/pagerduty.py:36-37 | `"a@x.com, b@y.com;  c@z.com"` parses to the three addresses in order |
| RecipientTargets.GetPayloadInfo | superset/reports/notifications/pagerduty.py:30-37 | the lookup fails exactly when the configuration is not an object (`NotAnObject`) or has no `"target"` key (`MissingTarget`); a non-string target gives `[]`; a string target gives its parsed targets, each non-empty and delimiter-free |
| PagerDutyPayload.BuildPayload | superset/reports/notifications/pagerduty.py:39-81 | a body is built exactly when the routing-key setting is present and serialisable, and otherwise the call gives the `False` sentinel; the body's routing key is the setting's value verbatim, `event_action` is `"trigger"`, and the dedup key, client and severity are the fixed constants |
| PagerDutyPayload.BuildPayloadFixedFields | superset/reports/notifications/pagerduty.py:41-76 | every build with a serialisable key succeeds; two builds agree on every field except the routing key, and are equal exactly when their routing keys are equal |

## Left out

- `send` (lines 83-98) is not modelled. It does network I/O: an HTTPS POST via `requests.post`, a bare `except: pass`, and logging.
- The `@statsd_gauge` decorator (line 83) is not modelled. It is a metrics sink, and its source is not part of this model.
- `json.loads` of the recipient configuration (line 31) is not modelled. The model starts from the decoded value, so malformed JSON text (a decode error) is outside it. JSON numbers are integers only, with no floats.
- `json.dumps` of the payload (line 41) is modelled only as success or failure. The payload is a record, not JSON text, so key order and byte format are not modelled. The model does not decide which Python objects are serialisable: that choice enters as the `Setting` parameter.
- The global `app.config` lookup (line 62) is replaced by the `Option<Setting>` parameter.
- The `logger.error` calls in the `except` branch (lines 79-80) are side effects and are not modelled.
- Lone surrogates are not modelled. A Python `str` can hold one (`json.loads` accepts a `"\ud800"` escape), but a Dafny `char` cannot. No parser behaviour depends on this, because a surrogate is never a delimiter or whitespace.
- `send` sets no timeout and does no retries; it is left out with the rest of `send`.
- `BaseNotification` and the `ReportRecipientType` tagging are not part of this model.
