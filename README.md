# SubRip serialiser of the Whisper transcriber, in Dafny

The Whisper transcriber is a small Streamlit application. It runs an audio
file through a Whisper speech model and offers the transcript as a SubRip
(`.srt`) subtitle file. The SubRip writer is three functions of
`whisper_app.py`:

- `timedelta_to_str` renders an offset as the time stamp `HH:MM:SS,mmm`;
- `convert_seg_element_to_srt_element` renders one segment as an element of
  the document;
- `convert_to_srt` appends the elements of all segments, in list order.

This project models those three functions and proves what they promise.

| file | module | contents |
|---|---|---|
| `options.dfy` | `Options` | the `Option` datatype |
| `decimal.dfy` | `Decimal` | `str(n)` and the zero-padded `{:0wd}` format of a non-negative integer, with their value and width |
| `text.dfy` | `Text` | `str.strip()`, characterised as the unique decomposition into whitespace, a trimmed core and whitespace |
| `srt_time.dfy` | `SrtTime` | `timedelta`, `timedelta_to_str`, and a reader for time stamps that inverts it |
| `srt.dfy` | `Srt` | segments, the element of a segment, the document (a loop method proved against a recursive function), and a reader for documents that inverts it |

Modelling decisions:

- **Offsets are whole microseconds.** An offset is the `nat` number of
  microseconds that `datetime.timedelta(seconds=...)` would hold. The
  timedelta is `Delta(days, seconds, microseconds)`, normalised as Python
  normalises it.
- **Hours wrap at 24.** Hours are `delta.seconds // 3600`, and
  `delta.seconds` leaves out the whole days. One could read the format as
  meant to print an unbounded hour count, `total_seconds // 3600`. The code
  does not do that, and the model follows the code.
  `TimestampExampleZero` shows one day printing as `00:00:00,000`.
  `TimestampEqual` states exactly which offsets print alike.
- **Milliseconds are truncated.** They are `delta.microseconds // 1000`, so
  sub-millisecond parts are cut off, never rounded
  (`TimestampExampleTruncation`).
- **Formatting.** `str(n)` is `Decimal.NatToString`, and `'{:0wd}'` is
  `Decimal.ZeroPad`.
- **Whitespace.** `str.strip()` removes, at both ends, the characters that
  Python's `str.isspace()` accepts: U+0009 to U+000D, the separators U+001C
  to U+001F, the space, U+0085, U+00A0, U+1680, U+2000 to U+200A, U+2028,
  U+2029, U+202F, U+205F and U+3000 (`Text.IsSpace`).
- **Segments.** A segment, one entry of `result["segments"]`, is the record
  `Segment(id, start, end, text)`. `convert_to_srt` reads nothing else from
  the result.
- **Readers.** `SrtTime.ParseTimestamp` and `Srt.ParseSrt` are not part of
  the program. They are independent reference definitions: reading a
  document back through them recovers the segments' printed indices, times
  and texts, which shows the output carries exactly that information.

## Model

| member | source | states |
|---|---|---|
| SrtTime.ToTimedelta | whisper_app.py:32 | the normalised timedelta of an offset: seconds below 86400, microseconds below 10^6, and days, seconds and microseconds add back up to the offset |
| SrtTime.TimedeltaToStr | whisper_app.py:30-34 | every offset gives a time stamp: 12 characters, digits at 0,1,3,4,6,7,9,10,11, ':' at 2 and 5, ',' at 8, hours below 24, minutes and seconds below 60 |
| SrtTime.FieldsOfDay | whisper_app.py:32-33 | hours, minutes, seconds and milliseconds as the code computes them add up to the offset cut to whole milliseconds, modulo one day |
| SrtTime.TimestampRoundTrip | whisper_app.py:30-34 | reading the time stamp back gives the offset's milliseconds of the day (wrap-around and truncation included) |
| SrtTime.TimestampOnto | whisper_app.py:30-34 | every well-formed time stamp is the output for the offset it stands for |
| SrtTime.TimestampEqual | whisper_app.py:30-34 | two offsets print the same time stamp if and only if they agree to the millisecond modulo one day |
| SrtTime.TimedeltaToStrLayout | whisper_app.py:33 | the time stamp is, character by character, the two-digit hours, minutes, seconds and three-digit milliseconds the code computes, with their separators |
| SrtTime.FieldDigits | whisper_app.py:33 | the format string `{:02d}:{:02d}:{:02d},{:03d}` lays its fields out digit by digit |
| SrtTime.TimestampOf | whisper_app.py:32-33 | an offset whose time of day is h:m:s.ms prints as exactly that layout |
| SrtTime.TimestampMidnight | whisper_app.py:32-33 | an offset that is a whole number of days, to the millisecond, prints as midnight |
| SrtTime.TimestampExampleHour | whisper_app.py:33 | 3661.5 s prints as `01:01:01,500` |
| SrtTime.TimestampExampleZero | whisper_app.py:32-33 | 0 and exactly one day both print as `00:00:00,000` |
| SrtTime.TimestampExampleSeconds | whisper_app.py:33 | 2.5 s prints as `00:00:02,500` |
| SrtTime.TimestampExampleMillis | whisper_app.py:33 | 59.999 s prints as `00:00:59,999` |
| SrtTime.TimestampExampleTruncation | whisper_app.py:33 | 59.999999 s prints as `00:00:59,999`: truncated, not rounded up to a minute |
| Decimal.NatToString | whisper_app.py:44 | `str(n)` is a non-empty string of digits that starts with '0' only for zero |
| Decimal.NatToStringValue | whisper_app.py:44 | the numeral `str(n)` has value n |
| Decimal.NatToStringLength | whisper_app.py:33 | `str(n)` has at most w digits if and only if n < 10^w |
| Decimal.ZeroPad | whisper_app.py:33 | `{:0wd}` gives digits only, w of them unless `str(n)` is already longer |
| Decimal.ZeroPadValue | whisper_app.py:33 | zero padding keeps the value |
| Decimal.ZeroPadWidth | whisper_app.py:33 | a value below 10^w is padded to exactly w digits |
| Decimal.ZeroPadOfValue | whisper_app.py:33 | every w-digit numeral is the zero-padded form of its value, so padding to width w is one-to-one on values below 10^w |
| Decimal.ZeroPadTwo | whisper_app.py:33 | `{:02d}` of n < 100 is its tens digit and its units digit |
| Decimal.ZeroPadThree | whisper_app.py:33 | `{:03d}` of n < 1000 is its hundreds, tens and units digits |
| Text.Strip | whisper_app.py:43 | `strip()` leaves a string with no whitespace at either end, and only whitespace was removed in front of it and behind it |
| Text.StripUnique | whisper_app.py:43 | any split of a string into whitespace, a trimmed core and whitespace has `strip()` as its core |
| Text.StripIdempotent | whisper_app.py:43 | stripping twice is stripping once |
| Text.StripExample | whisper_app.py:43 | `"  hello world  ".strip() == "hello world"` |
| Text.LeadingSpaceSpan | whisper_app.py:43 | the leading run `strip()` removes is all whitespace and stops at a non-whitespace character |
| Text.TrailingSpaceSpan | whisper_app.py:43 | the trailing run `strip()` removes is all whitespace and stops at a non-whitespace character |
| Srt.ElementLayout | whisper_app.py:44 | the f-string of an element adds 9 separator characters to its four pieces |
| Text.StripExampleUnicode | whisper_app.py:43 | a no-break space in front and a unit separator behind are stripped like ASCII whitespace |
| Srt.Element | whisper_app.py:36-45 | the element of fields id, start, end and text: the printed index `id + 1`, both time stamps and the stripped text in the f-string layout, so its length is the index's, 33 characters of time stamps and separators, and the text's |
| Srt.SrtElement | whisper_app.py:36-45 | `convert_seg_element_to_srt_element(seg)` is the element of the segment's four fields: printed index `id + 1`, both time stamps and the stripped text in the f-string layout, its length the index's plus 33 plus the text's |
| Srt.Accumulate | whisper_app.py:51-54 | the loop body `srt = srt + render(seg)` over the segments in list order from `""`; its order, concatenation and length properties are the `Accumulate*` lemmas below |
| Srt.SrtDocument | whisper_app.py:50-55 | the segments' elements concatenated in list order; what that promises is stated by `SrtDocumentEmpty`, `SrtDocumentAppend`, `SrtDocumentCons`, `SrtDocumentAt` and `ParseSrtRoundTrip` |
| Srt.ParseCueOfFields | whisper_app.py:38-44 | an element reads back as index `id + 1`, both times of day and the stripped text, and leaves whatever follows it untouched |
| Srt.ParseCueOfElement | whisper_app.py:36-45 | the element of a segment reads back as that segment's cue, and leaves whatever follows it untouched |
| Srt.SrtElementExample | whisper_app.py:36-45 | the segment with id 0, times 0 s and 2.5 s and text `"  hello world  "` gives `"1\n00:00:00,000 --> 00:00:02,500\nhello world\n\n"` |
| Srt.AccumulateStep | whisper_app.py:52-54 | one more turn of the loop appends the next segment's element |
| Srt.ConvertToSrt | whisper_app.py:48-55 | the loop, started from `""`, returns the document of all the segments |
| Srt.SrtDocumentEmpty | whisper_app.py:50-55 | the document is empty if and only if there are no segments |
| Srt.AccumulateAppend | whisper_app.py:51-54 | appending element by element distributes over concatenation of segment lists, whatever the element renderer |
| Srt.SrtDocumentAppend | whisper_app.py:51-54 | `convert_to_srt(a + b) == convert_to_srt(a) + convert_to_srt(b)` |
| Srt.SrtDocumentCons | whisper_app.py:51-54 | the document of a list starts with the element of its first segment |
| Srt.SrtDocumentAt | whisper_app.py:51-54 | segment k's element stands, whole and once, between the documents of the segments before and after it: no reordering, filtering or duplication |
| Srt.AccumulateLength | whisper_app.py:51-54 | the accumulated string is as long as all the rendered elements together |
| Srt.SrtDocumentLength | whisper_app.py:51-54 | the document's length is the sum of its elements' lengths |
| Srt.ParseSrtRoundTrip | whisper_app.py:48-55 | reading the document back gives one cue per segment, in list order, each with that segment's printed index, times and stripped text |
| Srt.PrintedIndices | whisper_app.py:38-54 | when the ids are 0 .. N-1 in list order, the document holds exactly N elements with printed indices 1 .. N in order |

## Left out

- Converting the float `seconds` to a `timedelta` (whisper_app.py:32) is floating-point numerics. `datetime.timedelta(seconds=...)` rounds to whole microseconds; the model takes those microseconds as its input.
- Negative offsets are left out. Python normalises them to negative days with positive seconds. Segment times are never negative, so offsets are `nat`.
- `datetime.timedelta(seconds=...)` (whisper_app.py:32) raises `OverflowError` for an offset of more than 999999999 days. `SrtTime.ToTimedelta` and `SrtTime.TimedeltaToStr` are total on `nat` and do not model that error; segment times of a transcript are far below the bound.
- Reading `seg["id"]` and the other dictionary entries can raise `KeyError` on a malformed segment. Segments here are typed records, so that error path does not arise.
- `get_whisper_model` and `transcripe_audio` (whisper_app.py:14-27) wrap the external Whisper model and read the wall clock. They are not part of this model.
- `save_srt` (whisper_app.py:57-66) writes files. It is I/O and not part of this model.
- `download_button`, `main` and the module-level configuration, including `os.makedirs` (whisper_app.py:70-129), are Streamlit UI and file-system I/O. They are not part of this model.
- Srt.ParseSrtRoundTrip: assumes that no stripped segment text contains a line feed. A line feed inside a text cannot be told apart from the end of the text line in the SubRip layout. Such documents are still modelled exactly by `SrtDocument`, but they do not read back cue by cue.
- Srt.ParseCueOfFields: carries the same single-line-text requirement, `'\n' !in Strip(text)`, for the same reason.
- Srt.ParseCueOfElement: carries the same single-line-text requirement on the segment's text, for the same reason.
- Srt.PrintedIndices: carries the same single-line-text assumption as `ParseSrtRoundTrip`, because it is stated through the reader.
