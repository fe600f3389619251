# read_sock: a Dafny model of the audit-line pipeline

`testing_utils/read_sock.py` connects to the audit dispatcher's local
socket and reads audit records as text lines. For every `execve` line
that has at least one key starting with `a` and a digit, it prints one
line: `CAPTURE: ` followed by the values of those keys, taken in string
order of the keys (so `a10` comes before `a2`) and joined by single
spaces. As written, a last line that never receives its newline is never
printed (see "Findings"). This project models the text-processing part of
that script, with the socket taken away:

- `data2dic` turns one line into a key/value record (`EventParser.Data2Dic`).
  The line is split on runs of whitespace, and each token is cut once at its
  first `=`. Spaces and double quotes are trimmed from both ends of the key
  and of the value. A token without `=` rejects the whole line.
- `filterdic` keeps a record only when its `type`, lower-cased, is the
  target type (`EventParser.FilterDic`). It then projects the record onto
  the keys that match `a[0-9]+` at their start.
- `dic2list` lists the kept values in the string order of their keys
  (`Reporter.Dic2List`). So `a10` comes before `a2`.
- The per-line composition of lines 98-103 is `Reporter.Capture`, and over
  many lines it is `MainLoop.Reports` and the method `MainLoop.Run`.
- The reassembly of lines inside `readsock` is the method
  `LineReader.ReadSock`. It runs over the sequence of chunks the socket
  delivers, appends each chunk to a buffer, and yields the text before the
  buffer's first newline for as long as there is one.

The Python builtins the pipeline relies on are written out in `PyStr`:
`str.split()` with Python's whitespace set, `split(sep, 1)`, `strip(' "')`,
`lower()` and `' '.join`. `KeyOrder` holds `sorted` over string keys, which
is Python's code-point order. `data2dic` and `filterdic` return an `Option`,
and `None` is the value their `except` branches return. `dic2list` is also
guarded by `try/except`, but its `except` branch cannot be reached (see
"Left out"), so it returns a plain list.

Files: `wrappers.dfy` (Option), `pystr.dfy`, `keyorder.dfy`,
`event_parser.dfy` (`data2dic`, `filterdic`), `reporter.dfy` (`dic2list`,
the `CAPTURE:` line), `line_reader.dfy` (`readsock`), `main_loop.dfy`
(lines 97-103).

## Model

| member | source | states |
|---|---|---|
| PyStr.Split | testing_utils/read_sock.py:21 | `data.split()` yields non-empty tokens without whitespace, and no tokens exactly when the line is all whitespace |
| PyStr.SplitSkipsSpaces | testing_utils/read_sock.py:21 | whitespace in front of a line does not change its tokens |
| PyStr.Join | testing_utils/read_sock.py:103 | definition of `' '.join(a)`, with no `ensures`: the pieces with the separator between each two. Its partner is `PyStr.SplitJoinRoundTrip` |
| PyStr.SplitJoinRoundTrip | testing_utils/read_sock.py:21 | splitting words joined by single spaces gives back exactly those words |
| PyStr.SplitLayout | testing_utils/read_sock.py:21 | splitting words laid out with any leading and trailing whitespace and any non-empty whitespace runs between them gives back exactly those words |
| PyStr.Gaps | testing_utils/read_sock.py:21 | every line is its own tokens laid out with whitespace runs, so `SplitLayout` determines `split()` on every input |
| PyStr.SplitOnce | testing_utils/read_sock.py:21 | `x.split('=',1)` fails to give two parts exactly when the token has no `=` |
| PyStr.SplitOnceCut | testing_utils/read_sock.py:21 | the cut is at the first `=`: the token is key, `=`, value, and the key holds no `=` (the value may) |
| PyStr.SplitOnceUnique | testing_utils/read_sock.py:21 | any such decomposition with an `=`-free left part is the one the cut finds |
| PyStr.Strip | testing_utils/read_sock.py:19-21 | a stripped key or value neither starts nor ends with a space or `"` |
| PyStr.StripIsSlice | testing_utils/read_sock.py:19-21 | stripping removes only spaces and quotes, and only at the two ends |
| PyStr.StripIdempotent | testing_utils/read_sock.py:19-21 | stripping twice is stripping once |
| PyStr.StripQuoted | testing_utils/read_sock.py:19-21 | a quoted value `"v"` strips to `v`, provided `v` is empty or neither starts nor ends with a space or `"` (otherwise those characters are stripped too) |
| PyStr.Lower | testing_utils/read_sock.py:27 | `lower()` keeps the length and lower-cases each letter |
| KeyOrder.LessIrreflexive | testing_utils/read_sock.py:36 | the key order used by `sorted` is irreflexive |
| KeyOrder.LessTransitive | testing_utils/read_sock.py:36 | the key order is transitive |
| KeyOrder.LessTotal | testing_utils/read_sock.py:36 | any two distinct keys are ordered one way |
| KeyOrder.SortedKeys | testing_utils/read_sock.py:36 | `sorted(data.keys())` lists every key once, in strictly ascending order |
| KeyOrder.StrictlySortedUnique | testing_utils/read_sock.py:36 | two strictly ascending lists of the same keys are equal, so the sorted order is the only one |
| KeyOrder.SortedKeysIsLexicographic | testing_utils/read_sock.py:36 | `a1`, `a2`, `a10` sort as `a1`, `a10`, `a2` |
| EventParser.Field | testing_utils/read_sock.py:21 | a token gives a key/value pair exactly when it holds an `=` |
| EventParser.Fields | testing_utils/read_sock.py:20-23 | the tokens give their pairs, one per token and in order, unless some token has no `=`, in which case none are given |
| EventParser.FieldOfToken | testing_utils/read_sock.py:21 | a token `k=v` with `=`-free `k` gives the pair of stripped `k` and stripped `v` |
| EventParser.FieldsOfWellFormed | testing_utils/read_sock.py:20-21 | when every token gives its pair, the whole line gives exactly those pairs |
| EventParser.DictOf | testing_utils/read_sock.py:21 | the dictionary built from the pairs has exactly the pairs' keys |
| EventParser.DictOfLastWins | testing_utils/read_sock.py:21 | a key's value is the one from its last pair |
| EventParser.TokensToDict | testing_utils/read_sock.py:20-23 | the comprehension fails exactly when some token has no `=`, and no tokens give the empty dictionary |
| EventParser.Data2Dic | testing_utils/read_sock.py:18-23 | `data2dic` is `None` exactly when some whitespace-separated token has no `=`, and an all-whitespace line gives the empty dictionary |
| EventParser.TokensToDictKeys | testing_utils/read_sock.py:21 | the record's keys are exactly the stripped keys of the tokens |
| EventParser.TokensToDictLastWins | testing_utils/read_sock.py:21 | for a repeated key the later token's value wins |
| EventParser.Data2DicSingleToken | testing_utils/read_sock.py:18-21 | a one-token line `k=v` gives the one-entry record of stripped `k` and stripped `v` |
| EventParser.Data2DicKeepsLaterEquals | testing_utils/read_sock.py:21 | `k=a=b` gives key `k` with value `a=b` |
| EventParser.Data2DicExecveLine | testing_utils/read_sock.py:18-23 | the line `type=T k0="v0" k1="v1"` gives the record with `type`, `k0` and `k1`, quotes removed. Keys and values are free of whitespace and `"`, the keys are non-empty and free of `=`, and a repeated key keeps its later value |
| EventParser.TypeOf | testing_utils/read_sock.py:27 | definition of `data.get('type', '')`, with no `ensures`: the `type` value, or `''` when the record has none. `EventParser.FilterDic` states what it decides |
| EventParser.IsArgKey | testing_utils/read_sock.py:28 | definition of `re.match('a[0-9]+', k)`, with no `ensures`: at least two characters, `a`, then an ASCII digit. `EventParser.FilterDic` and `EventParser.FilterDicMatchesPrefixOnly` state what it keeps |
| EventParser.FilterDic | testing_utils/read_sock.py:25-32 | `None` in gives `None`. Otherwise the result exists exactly when the lower-cased `type` (or `''` without one) is the target. The result keeps exactly the keys matching `a[0-9]` at their start, with unchanged values |
| EventParser.FilterDicNeedsType | testing_utils/read_sock.py:27-30 | a record without `type` is rejected for a non-empty target |
| EventParser.FilterDicNotReapplicable | testing_utils/read_sock.py:25-30 | the filter's output has no `type`, so filtering it again gives `None` |
| EventParser.FilterDicIgnoresCase | testing_utils/read_sock.py:27 | `type=ExecVE` passes the `execve` filter |
| EventParser.FilterDicMatchesPrefixOnly | testing_utils/read_sock.py:28 | `a1x` is kept, but `xa1` and `a` are dropped: the pattern is anchored at the start only |
| Reporter.Dic2List | testing_utils/read_sock.py:34-38 | the list is as long as the dictionary, and every element is one of its values |
| Reporter.Dic2ListByAscendingKey | testing_utils/read_sock.py:36 | for any strictly ascending enumeration of exactly the dictionary's keys, `dic2list` is the list of their values in that order |
| Reporter.Dic2ListIsLexicographic | testing_utils/read_sock.py:36 | the values of `a1`, `a2`, `a10` come out as those of `a1`, `a10`, `a2` |
| Reporter.Report | testing_utils/read_sock.py:99-103 | a parsed record is reported exactly when its type is `execve` in any case and it has a key matching `a[0-9]` |
| Reporter.Capture | testing_utils/read_sock.py:99-103 | a line is reported exactly when it parses, its type is `execve` in any case, and it has a key matching `a[0-9]` |
| Reporter.ReportText | testing_utils/read_sock.py:99-103 | take any non-empty, strictly ascending list of exactly the record's `a[0-9]`-prefixed keys. The report is `CAPTURE: ` followed by those keys' values in that order, joined by single spaces |
| Reporter.ReportTwoArguments | testing_utils/read_sock.py:99-103 | an `execve` record with two argument keys in ascending order is reported as `CAPTURE: v0 v1` |
| Reporter.CaptureTwoArguments | testing_utils/read_sock.py:98-103 | `type=execve k0="v0" k1="v1"` with `k0` before `k1` prints `CAPTURE: v0 v1` |
| LineReader.SplitLines | testing_utils/read_sock.py:74-77 | the text is its newline-free lines, each followed by a newline, then a newline-free residue |
| LineReader.SplitLinesUnique | testing_utils/read_sock.py:74-77 | any such reading of the text is the one `SplitLines` gives |
| LineReader.ReadSock | testing_utils/read_sock.py:71-90 | the yielded lines are newline-free and, with the residue still buffered, rebuild the concatenated chunks; the result depends only on that concatenation, not on how it was cut into chunks |
| LineReader.Flush | testing_utils/read_sock.py:91-92 | a non-empty leftover buffer is yielded as exactly one last line, and an empty one yields nothing |
| LineReader.ReadLines | testing_utils/read_sock.py:74-92 | every line yielded, the flushed one included, is newline-free |
| LineReader.ReadLinesTerminated | testing_utils/read_sock.py:74-92 | with the flush no text is lost: the lines, each given its newline, are the input with its last line terminated |
| LineReader.ReadLinesOfSplit | testing_utils/read_sock.py:74-92 | the lines yielded with the flush are those of the input with its last line terminated |
| LineReader.UnterminatedLineWithheld | testing_utils/read_sock.py:74-90 | the loop as written never yields a final line that lacks a newline |
| LineReader.UnterminatedLineFlushed | testing_utils/read_sock.py:91-92 | with the flush, that final line is yielded |
| LineReader.ReadSockFlushing | testing_utils/read_sock.py:71-92 | the reader run to the stream's end yields `ReadLines` of everything received, whatever the chunking |
| MainLoop.Reports | testing_utils/read_sock.py:98-103 | there are no more reports than lines |
| MainLoop.ReportsAppend | testing_utils/read_sock.py:98-103 | the reports for two stretches of lines are the reports for each, in order: no state carries from one line to the next |
| MainLoop.Run | testing_utils/read_sock.py:97-103 | composed with the corrected reader (see "Findings"), the printed `CAPTURE:` lines are the reports for all lines read, flushed tail included. They are what the code as written prints for the complete lines, followed by at most the report of the unterminated tail |
| MainLoop.ExecveLineIsOneLine | testing_utils/read_sock.py:74-77 | an audit line built from whitespace-free fields holds no newline |
| MainLoop.ExecveRecordReported | testing_utils/read_sock.py:74-103 | `type=execve a0="ls" a2="-l"` plus newline, cut into chunks in any way, prints exactly `CAPTURE: ls -l` (and the like for any two ordered argument keys) |

## Left out

- Connecting to `/var/run/audispd_events`, the exit on failure and the socket close (lines 8-16, 106-108) are operating-system I/O.
- `_read_sock` (lines 51-67) is replaced by the chunks it returns. An empty chunk stands for a read that returned nothing: a timeout, a swallowed exception, or `b''` from a closed peer. The `select` branch is never taken, because `timeout_method` is always `True`.
- UTF-8 decoding of each chunk (lines 73, 81) is a library call. Chunks are taken as already-decoded text, so a multi-byte character split across two reads is not modelled.
- `time.sleep(0.1)` and the `Connected socket`, `Readed`, `waiting`, `END LOOP` and `Closing socket` prints are not modelled. Neither is the outer `while processing` loop around the reader (line 97). It would restart `readsock`, but never does: as written `readsock` never returns. With line 88 restored, `processing` would become `False` and the outer loop would end after one pass.
- `print_dict` (lines 40-49) and `filter_valid_executables` (line 96) are never used.
- Regular expressions in general are not modelled. `filterdic` is modelled only with the pattern `a[0-9]+`, which is both its default and the pattern the main loop passes. `re.match` anchors it at the start, so the test is: at least two characters, `a`, then an ASCII digit (`EventParser.IsArgKey`).
- PyStr.Lower: lower-cases ASCII letters only. Python's `lower()` also maps other letters, and a few of them to two characters. No non-ASCII character lower-cases to any of `e`, `x`, `c`, `v`, so comparing with `execve` gives the same answer.
- `dic2list`'s `except` branch (line 38) cannot be reached: the record it is given is a dictionary with string keys and string values.
- `filterdic` is a function of its arguments, so determinism and leaving the input unchanged hold by construction. No lemma states them.
- A quoted value containing a space is cut into two tokens, as in the source. The second token then usually has no `=` and rejects the line. The model keeps that behaviour rather than correcting it.
- Reporter.CaptureTwoArguments and MainLoop.ExecveRecordReported go from raw text to output only for lines with exactly two argument fields. For a record with any number of argument fields, the printed text is stated on the parsed record by `Reporter.ReportText`.

## Findings

| source | as written | input that shows it | evidently intended | confidence | as-written member | corrected member |
|---|---|---|---|---|---|---|
| testing_utils/read_sock.py:86-92 | `processing` is never set to `False`: line 88 is commented out. When nothing more arrives, the loop sleeps and retries forever, so the flush of the remaining buffer at lines 91-92 is never reached. | The peer sends `type=execve a0="ls"` with no trailing newline, then closes. No line is ever yielded, and no `CAPTURE` is printed. | When the stream ends, the text left in the buffer is yielded as a last line, as lines 91-92 are written to do. | medium, not executed | LineReader.ReadSock, LineReader.UnterminatedLineWithheld | LineReader.ReadSockFlushing, LineReader.UnterminatedLineFlushed (used by MainLoop.Run) |
