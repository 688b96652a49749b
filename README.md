# Agema file-name sanitizer, in Dafny

This project models `TempFileHelper.MakeValidFileName` from Agema.Common.
That function turns arbitrary text into a string usable as one file-name
component. It makes a single left-to-right pass:

- a character the platform allows is copied unchanged;
- a forbidden character sets the `changed` flag and is replaced by the first
  rule that applies:
  - with `fancy` on, `"`, `'` and `/` become U+201D, U+2019 and U+2044;
  - otherwise it becomes the caller's `replacement`;
  - a null replacement (read as NUL) deletes it instead;
- an empty buffer gives `"_"`;
- an unchanged input is returned as it was.

Files:

- `wrappers.dfy`, module `Wrappers`: `Option<T>`, which stands for the C#
  nullable `char?` of the `replacement` parameter.
- `temp_file_helper.dfy`, module `TempFileHelper`. It holds the specification
  functions `CharImage` (what one character contributes), `Filtered` (the
  buffer after the scan) and `Sanitized` (the returned value). It holds the
  method `MakeValidFileName`, which is the loop over a `StringBuilder`,
  modelled as a `string` buffer and a `changed` flag. The rest are lemmas
  about the specification.

The platform's forbidden characters, `Path.GetInvalidFileNameChars()`, are
the parameter `invalids: seq<char>` (the source holds them in a `char[]`).
Every property is therefore proved for every platform's set. The worked
examples use a sample set of forbidden characters, not any real platform's
list.

## Model

| member | source | states |
|---|---|---|
| `TempFileHelper.MakeValidFileName` | csharp/Agema/Agema.Common/TempFileHelper.cs:69-96 | The loop with its buffer and `changed` flag returns exactly `Sanitized` of its inputs. A non-empty input with no forbidden character comes back unchanged. As in C#, `replacement` defaults to `'_'` and `fancy` to true. |
| `TempFileHelper.LookAlike` | csharp/Agema/Agema.Common/TempFileHelper.cs:81-86 | The look-alike of `"`, `'` or `/` is never NUL, so it is always appended. It differs from the original character and is not itself one of the three. |
| `TempFileHelper.CharImage` | csharp/Agema/Agema.Common/TempFileHelper.cs:76-91 | One input character contributes at most one output character. |
| `TempFileHelper.Filtered` | csharp/Agema/Agema.Common/TempFileHelper.cs:71-92 | The buffer is never longer than the input. With a real, non-NUL replacement it is exactly as long, because no character is deleted. |
| `TempFileHelper.Sanitized` | csharp/Agema/Agema.Common/TempFileHelper.cs:65-95 | The result is never empty. An empty input gives `"_"`. A non-empty input gives at most `|text|` characters, and exactly `|text|` when the replacement is a real character. |
| `TempFileHelper.FilteredAppend` | csharp/Agema/Agema.Common/TempFileHelper.cs:74-92 | The buffer of `a + b` is the buffer of `a` followed by the buffer of `b`. Each character is handled alone, in order. |
| `TempFileHelper.Placement` | csharp/Agema/Agema.Common/TempFileHelper.cs:74-92 | The image of `text[i]` sits between the buffers of the characters before it and those after it. |
| `TempFileHelper.FilteredOfValid` | csharp/Agema/Agema.Common/TempFileHelper.cs:90-91 | If no character is forbidden, the buffer equals the input. |
| `TempFileHelper.FilteredEmptyIff` | csharp/Agema/Agema.Common/TempFileHelper.cs:87-93 | The buffer is empty exactly when every input character is one that is deleted. Both directions are proved. |
| `TempFileHelper.PlaceholderOrBuffer` | csharp/Agema/Agema.Common/TempFileHelper.cs:93-95 | If every character is deleted, including the empty text, the result is `"_"`. Otherwise the result is the buffer. So the `changed` flag never affects the value. |
| `TempFileHelper.ImageInResult` | csharp/Agema/Agema.Common/TempFileHelper.cs:74-95 | If a character produces output, that output is in the result at the position given by the output of the characters before it. |
| `TempFileHelper.PositionsOrdered` | csharp/Agema/Agema.Common/TempFileHelper.cs:74-92 | The output of an earlier character lands before the output of a later character. The input order is kept. |
| `TempFileHelper.ValidCharCopied` | csharp/Agema/Agema.Common/TempFileHelper.cs:77-91 | An allowed character appears unchanged in the result at its position, whatever `fancy` and `replacement` are. |
| `TempFileHelper.FancyLookAlike` | csharp/Agema/Agema.Common/TempFileHelper.cs:81-86 | With `fancy` on, a forbidden `"`, `'` or `/` becomes U+201D, U+2019 or U+2044, whatever the replacement is, including none. |
| `TempFileHelper.ReplacedByReplacement` | csharp/Agema/Agema.Common/TempFileHelper.cs:80-88 | Any other forbidden character becomes the replacement character when that is a real, non-NUL character. |
| `TempFileHelper.DeletedWithoutReplacement` | csharp/Agema/Agema.Common/TempFileHelper.cs:80-88 | With a null or NUL replacement, any other forbidden character is dropped: the buffer equals the buffer of the text without it. |
| `TempFileHelper.FilteredHasNoInvalid` | csharp/Agema/Agema.Common/TempFileHelper.cs:77-91 | If the replacement and (with `fancy` on) the three look-alikes are allowed, the buffer has no forbidden character. Whether `_` is allowed does not matter here. |
| `TempFileHelper.ResultHasNoInvalid` | csharp/Agema/Agema.Common/TempFileHelper.cs:65-95 | If the replacement and (with `fancy` on) the three look-alikes are allowed, the result has no forbidden character. This also needs `_` to be allowed, unless the buffer is non-empty. |
| `TempFileHelper.ExampleFancy` | csharp/Agema/Agema.Common/TempFileHelper.cs:81-86 | With `"`, `'` and `/` forbidden and `fancy` on, `a"b'c/d` becomes `a”b’c⁄d`. |
| `TempFileHelper.ExampleDelete` | csharp/Agema/Agema.Common/TempFileHelper.cs:80-88 | With `*` forbidden and no replacement, `bad*char` becomes `badchar`. |
| `TempFileHelper.ExampleReplaceAll` | csharp/Agema/Agema.Common/TempFileHelper.cs:87-94 | `***` becomes `___` with replacement `_`, and `"_"` with no replacement. |

## Left out

- `GetAssemblyAppDataDirectory` and `GetTemporaryDirectory` (TempFileHelper.cs:25-55) are not modelled. They are filesystem I/O, environment and reflection queries, and logging. No logic in them can be stated.
- The logging (lines 18, 37, 51) is not modelled.
- `Path.GetInvalidFileNameChars()` depends on the platform. It is the parameter `invalids` instead.
- The lazily filled static cache `_invalids` (lines 57, 72) is not modelled. Its race on first use is not modelled either. It does not change the result.
- `invalids.Contains(c)` is modelled as sequence membership. The LINQ scan itself is not modelled.
- `TempFileHelper.MakeValidFileName` states only value equality with the input when nothing changed. The source returns the same string reference. Dafny strings are values, so reference identity cannot be stated.
- `TempFileHelper.ResultHasNoInvalid` also assumes that `_` is an allowed character whenever the buffer is empty. The empty-output fallback writes `_` without checking it. The promise of an invalid-free result holds only when the replacement and, with `fancy` on, the three look-alikes are allowed, too.
- `TempFileHelper.MakeValidFileName` takes a `string`, which is never null. In C#, a null `text` throws a NullReferenceException at `text.Length` (line 71). That error path is not modelled.
- `TempFileHelper.MakeValidFileName` works on Unicode scalar values. A C# `char` is a UTF-16 code unit. Lone surrogates cannot be represented here. The lengths in the contracts of `Sanitized` and `Filtered` count scalar values, not `text.Length` code units.
