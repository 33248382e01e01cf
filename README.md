# mystbin paste mapping, in Dafny

This project models the response-to-object layer of the mystbin client
library (`mystbin/paste.py`). That layer turns decoded API responses into
`File` and `Paste` values. The model covers:

- `File.__init__`, which derives `lines_of_code` and `character_count` from the
  content when they are `None` or `0`;
- `File.from_data`, which takes the syntax hint from the text after the last
  `.` of the filename;
- `File.to_dict`;
- `Paste.__init__`, which always parses `created_at` and parses `expires` and
  `last_edited` only when they are truthy;
- `Paste.from_data`, which converts every file in order and uses required
  lookups for some keys and `.get` for others.

Layout:

- `wrappers.dfy`: `Option` and `Result`.
- `pystr.dfy`: Python's `split`, `rsplit` and `[-1]`, which `paste.py` uses,
  together with `join` and `count`, which the model uses to characterise them.
- `responses.dfy`: the payload shapes from `mystbin/types/responses.py`. Each
  key is an `Option`, where `None` means the key is absent.
- `pastes.dfy`: `File`, `Paste` and their constructors and factories.
- `properties.dfy`: lemmas that relate several calls or several inputs.
- `scenarios.dfy`: concrete responses and their results.

A Python exception becomes a `Failure`. A `KeyError` is `MissingKey(key)`, and
a `ValueError` from `datetime.fromisoformat` is `InvalidIsoFormat(text)`.
Failures are reported in Python's evaluation order:

1. the `files` key;
2. each file, in order (`content`, `filename`, `loc`, `charcount`);
3. `id`, `created_at` and `expires`;
4. parsing `created_at`, then `expires`, then `last_edited`.

Points about the code that are easy to misread:

- `GetPasteResponse` declares `expires: str | None`, and `paste.py:121` reads it
  with `payload["expires"]`. An absent `expires` key is therefore a
  `MissingKey("expires")` failure, not "never expires"
  (`Scenarios.MissingExpires`). A present `null` or `""` gives no expiry.
- `loc` and `charcount` are taken from the payload, but a value of `0` is
  re-derived from the content, because the constructor uses Python's `or`
  (`paste.py:61-62`).
- The payload of `Scenarios.SampleFile` reports `charcount` 18 for content of
  17 characters. Because 18 is non-zero, it is kept as it is.

## Model

| member | source | states |
|---|---|---|
| `PyStr.Split` | mystbin/paste.py:61 | `content.split("\n")` always yields at least one segment |
| `PyStr.SplitLength` | mystbin/paste.py:61 | the number of `split` segments is the number of separators plus one |
| `PyStr.SplitPartsOmitSep` | mystbin/paste.py:61 | no `split` segment contains the separator |
| `PyStr.JoinSplit` | mystbin/paste.py:61 | joining the `split` segments with the separator gives back the string |
| `PyStr.SplitJoin` | mystbin/paste.py:61 | splitting a join of separator-free segments gives back those segments, so `split` is the inverse of `join` |
| `PyStr.RSplit` | mystbin/paste.py:69 | `filename.rsplit(".")` always yields at least one segment, so `[-1]` never fails |
| `PyStr.RSplitIsSplit` | mystbin/paste.py:69 | `rsplit` without `maxsplit` returns the same list as `split` |
| `PyStr.RSplitLastIsLastSegment` | mystbin/paste.py:69 | `rsplit(sep)[-1]` is a separator-free suffix that is either the whole string or follows a separator |
| `PyStr.LastSegmentUnique` | mystbin/paste.py:69 | at most one string is what follows the last separator, so that description determines the syntax hint |
| `Pastes.SyntaxOf` | mystbin/paste.py:69 | the syntax hint is the text after the last `.`; with no `.` it is the whole filename; with a trailing `.` it is `""` |
| `Pastes.ParseIso` | mystbin/paste.py:103 | `created_at` is always parsed, and a parse failure is `InvalidIsoFormat` of that text |
| `Pastes.ParseIfTruthy` | mystbin/paste.py:104-105 | the result is unset exactly when the input is `None` or `""`; otherwise it is the parse of the input, or a format failure |
| `Pastes.File.New` | mystbin/paste.py:49-62 | fields are copied; a `None` or `0` line count becomes the number of newlines plus one; a `None` or `0` character count becomes the content length; any other value is kept |
| `Pastes.File.FromData` | mystbin/paste.py:64-72 | succeeds exactly when `content`, `filename`, `loc` and `charcount` are present; otherwise reports the first missing key in that order; copies content and filename; the syntax is what follows the last `.` of the filename; a zero `loc` or `charcount` is re-derived |
| `Pastes.File.ToDict` | mystbin/paste.py:74-77 | the key set is exactly {`content`, `filename`, `syntax`}, and each value is the matching field |
| `Pastes.FilesFromData` | mystbin/paste.py:117 | succeeds exactly when every file converts; keeps length and order, each element being `File.from_data` of the payload at the same index; a failure is a missing key |
| `Pastes.FilesFromDataFailsAtFirst` | mystbin/paste.py:117 | a failing list reports the error of the first payload that fails, all before it converting |
| `Pastes.Paste.New` | mystbin/paste.py:92-107 | succeeds exactly when `created_at` parses and each truthy optional timestamp parses; otherwise fails with `InvalidIsoFormat` of the first text that does not parse, in the order `created_at`, `expires`, `last_edited`; `expires` and `last_edited` are unset exactly when their input is `None` or `""`, and otherwise are the parse of the input; other fields are copied |
| `Pastes.Paste.FromData` | mystbin/paste.py:115-125 | a missing `files`, `id`, `created_at` or `expires` key is a `MissingKey` failure, in that order; a failing file means no paste; once all keys are present, an unparseable `created_at`, truthy `expires` or truthy `last_edited` fails with `InvalidIsoFormat` of that text, in that order; on success the files correspond one to one, in order, `views` and `last_edited` come from `.get`, and each timestamp that is set is the parse of the payload text |
| `PasteProperties.DerivedLineCountMatchesContent` | mystbin/paste.py:61 | a derived line count equals the number of newline-separated segments, which rejoin to the content, and it is at least 1 |
| `PasteProperties.FromDataSyntaxIsExtension` | mystbin/paste.py:69 | bridge from `File.FromData`'s last-dot characterisation to `SyntaxOf`: the syntax chosen by `File.from_data` is `filename.rsplit(".")[-1]` |
| `PasteProperties.FromDataIgnoresAnnotation` | mystbin/paste.py:64-72 | `annotation` and `parent_id` do not affect `File.from_data` |
| `PasteProperties.ToDictForgetsMetrics` | mystbin/paste.py:74-77 | two files have equal `to_dict()` exactly when content, filename and syntax agree; the metrics are not exported |
| `PasteProperties.FromDataReportsFirstBadFile` | mystbin/paste.py:117 | when a file of the payload fails, no paste is built and the error is that of the first failing file |
| `PasteProperties.ViewsAbsentIsNotZero` | mystbin/paste.py:123 | an absent `views` key gives `None`, and `views == 0` gives `Some(0)` |
| `Scenarios.SampleFile` | mystbin/paste.py:64-72 | `main.py` with `loc` 2 and `charcount` 18 gives syntax `py` and keeps both metrics |
| `Scenarios.ZeroMetricsAreDerived` | mystbin/paste.py:61-62 | a file payload with `loc` 0 and `charcount` 0 whose content is two newline-free lines joined by one newline (as in the sample `print(1)\nprint(2)`) gets 2 lines and its full length as character count |
| `Scenarios.SamplePaste` | mystbin/paste.py:115-125 | the sample paste response, carrying `"expires": null`, gives id `abc123`, no expiry, no views and the one sample file |
| `Scenarios.MissingExpires` | mystbin/paste.py:121 | the same response without an `expires` key gives `MissingKey("expires")` |
| `Scenarios.MissingId` | mystbin/paste.py:119 | a response without `id` gives `MissingKey("id")` |
| `Scenarios.MalformedCreatedAt` | mystbin/paste.py:103 | an unparseable `created_at` gives `InvalidIsoFormat("not-a-date")` |

## Left out

- `datetime.datetime.fromisoformat` is a library parser. It is a parameter `parse: string -> Option<DateTime>` of the paste operations, and every property holds for any such parser. ISO-8601 syntax itself is not modelled.
- `Paste.__str__` and `Paste.__repr__` only format text for display. The model does not produce these strings. The file count that `__repr__` shows is `|files|`, and `Pastes.Paste.FromData` fixes it to the number of files in the payload.
- Payload values of the wrong type are not modelled. Examples are a non-string `filename`, or a `files` value that is not a list. Python would raise `AttributeError` or `TypeError`, or sometimes carry the value through. Each payload value is assumed to have the type declared in `mystbin/types/responses.py`.
- `CreatePasteResponse` and its `safety` key are not read by the mapping layer.
- The `author_id` and `notice` slots of `Paste` are never assigned, so nothing is modelled for them.
- HTTP transport, authentication and rate limiting are not part of this model.
- `len(content)` counts code points. Dafny's `char` is a Unicode scalar value, so a string with a lone surrogate cannot be represented.
