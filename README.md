# CCTV-SN-Scan: a verified model of the scan, sort, save and export logic

CCTV-SN-Scan is a small Flask application. It reads serial numbers off
camera labels for three product lines: IMOU (a QR code holding
`{SN:…,SC:…,PID:…}`), HIK and Dahua (a barcode holding the serial number
alone). For each line it keeps a JSON file of the scans it has saved. It
shows that list sorted by any column, appends the confirmed scan, and exports
the list as a spreadsheet. This project models the logic under that web
layer, in Dafny:

- `text.dfy` (module `Text`): the Python string operations the parsers and
  the sort key use: `strip`, `strip(chars)`, `split(sep)`, `split(sep, 1)`,
  `lower` and the code-point order `<` on strings.
- `qr_parser.dfy` (`QrParser`): `parse_qr_data`. `ParseQr` is the function
  that specifies it. `ParseQrData` is a loop that fills the dictionary item
  by item, as the source does.
- `barcode_parser.dfy` (`BarcodeParser`): `parse_barcode_data`, over the
  decoded payloads.
- `records.dfy` (`Records`): the stored record and the fields each product
  line uses.
- `record_sort.dfy` (`RecordSort`): the sort key of the index handlers and
  `records.sort(key=…, reverse=…)`.
  - The sort is an insertion sort in place on an array.
  - It is proved equal to a functional stable sort.
  - That functional sort is proved to be ordered, a permutation and stable.
- `record_store.dfy` (`RecordStore`): the save handlers, as a `Store` class
  whose `records` field the `Save` method appends to.
- `export.dfy` (`Export`): the export handlers.
  - An empty store is refused.
  - Otherwise the worksheet's columns are built and the column-width loop
    runs over them.
- `wrappers.dfy` (`Wrappers`): `Option`.

The HIK and Dahua handlers copy the IMOU ones. The model states each routine
once and takes the product line as a parameter (`Records.ProductLine`).

## Model

| member | source | states |
|---|---|---|
| Text.StripChars | app.py:37 | `s.strip(chars)`: the longest prefix and then the longest suffix made of characters of the set removed. |
| Text.Strip | app.py:45 | `s.strip()`: `StripChars` with the ASCII whitespace of `str.isspace`. (It is also used at app.py:63.) |
| Text.TrimStartSpec | app.py:37 | Stripping the start keeps a suffix. It removes only characters of the set, and it stops at the first character outside the set. |
| Text.TrimEndSpec | app.py:37 | Stripping the end keeps a prefix. It removes only characters of the set, and it stops at the last character outside the set. |
| Text.StripCharsIsMaximalSlice | app.py:37 | `strip(chars)` returns a contiguous slice `s[i..j]` of its input. Everything cut off before `i` and after `j` is in the set, and the slice neither starts nor ends with a character of the set. |
| Text.StripCharsEmptyIff | app.py:63-65 | Stripping leaves the empty string exactly when every character of the input is in the set. |
| Text.StripCharsKeeps | app.py:63-67 | A character outside the set survives stripping. |
| Text.StripCharsIdempotent | app.py:63 | Stripping twice gives the same result as stripping once. |
| Text.Split | app.py:37 | `s.split(sep)` for a one-character separator: always at least one part, and empty parts are kept. |
| Text.SplitJoin | app.py:37 | No part of `split(',')` contains the separator, and joining the parts with the separator gives back the input. |
| Text.SplitAfterPiece | app.py:37 | A piece without the separator is one part, and a separator after it starts the next part. |
| Text.SplitFirst | app.py:44 | `key, value = s.split(sep, 1)`: `None` when `sep` does not occur (the unpacking raises), otherwise the text before the first `sep` and everything after it. |
| Text.SplitFirstSpec | app.py:44 | `split(':', 1)` fails to unpack exactly when there is no `:`. Otherwise the key holds no `:`, and key, `:` and value together make up the item. |
| Text.SplitFirstAt | app.py:44 | Only the first `:` splits; any later `:` stays in the value. |
| Text.Lower | app.py:119 | `s.lower()` on the ASCII letters. |
| Text.LowerSpec | app.py:119 | `lower()` keeps the length and lowers each ASCII letter in place. |
| Text.LowerIgnoresCase | app.py:119 | Strings that differ only in the case of ASCII letters lower to the same string, and lowering twice gives the same result as lowering once. |
| Text.LowerHasNoUpper | app.py:119 | No upper-case ASCII letter is left after lowering. |
| Text.StrLt | app.py:120 | Python's `<` on strings: lexicographic by code point, a proper prefix coming first. |
| Text.StrLtIrreflexive | app.py:120 | The string order is irreflexive. |
| Text.StrLtTransitive | app.py:120 | The string order is transitive. |
| Text.StrLtTotal | app.py:120 | The string order is total. |
| QrParser.ParseQr | app.py:34-57 | The reference definition of `parse_qr_data`: braces stripped from both ends, the rest split on `,`. `None` for fewer than three items (app.py:39-41), for an item without `:` (the caught unpacking error, app.py:44 and 56-57), or when one of `SN`, `SC`, `PID` is missing (app.py:48-55). Otherwise the `SN`, `SC` and `PID` values of the dictionary the items build, a later key overwriting an earlier one. The loop and the lemmas below are stated against it. |
| QrParser.Items | app.py:37 | `qr_string.strip('{}').split(',')`. |
| QrParser.AddEntry | app.py:44-45 | One turn of the item loop: the dictionary with `key.strip()` set to `value.strip()`, a later key overwriting an earlier one, or `None` once the unpacking has raised. |
| QrParser.Entry | app.py:44-45 | One item as the pair (stripped key, stripped value) split at its first `:`, or `None` when the item has no `:` and the unpacking raises. |
| QrParser.BuildDict | app.py:38-45 | The dictionary the loop fills, item by item, a later key overwriting an earlier one; `None` once an item raises. |
| QrParser.ParseQrData | app.py:34-57 | The loop over the items returns the value that `ParseQr` specifies in every case, including fewer than three items, an item without `:` and a missing key. |
| QrParser.BuildDictFails | app.py:43-45 | Once one item has no `:`, the dictionary build fails for every longer list. |
| QrParser.EntryFails | app.py:44 | An item makes the tuple unpacking raise exactly when it contains no `:`. |
| QrParser.BuildDictSucceedsIff | app.py:43-45 | The dictionary is built exactly when every item contains `:`. |
| QrParser.BuildDictKeys | app.py:43-45 | The dictionary's keys are exactly the trimmed keys of the items. |
| QrParser.LastWithKeyExtend | app.py:43-45 | An item with a different key, added after the last item with key `k`, leaves that item the last one with `k`. |
| QrParser.BuildDictLastWins | app.py:43-45 | Each key holds the trimmed value of the last item with that key. |
| QrParser.ParseQrSucceedsIff | app.py:37-57 | A record is returned exactly when all of these hold: there are at least three items, every item has `:`, and `SN`, `SC` and `PID` all occur as trimmed keys. Otherwise the result is `None`, never a partial record. |
| QrParser.ParseQrLastWins | app.py:43-53 | `sn`, `sc` and `pid` are each the trimmed value of the last item with that key. Other keys play no part. |
| QrParser.ItemsCanonical | app.py:37 | The braced text of three comma-free items, the first not starting with a brace and the last not ending with one, splits into exactly those items. |
| QrParser.EntryOfKey | app.py:44-45 | A non-empty key with no `:` and no whitespace at either end, followed by `:`, gives the entry (key, trimmed value), whatever `:` the value contains. |
| QrParser.BuildDictThree | app.py:43-45 | Three items with keys `SN`, `SC` and `PID` build the dictionary of their three values. |
| QrParser.ParseQrThreeItems | app.py:47-53 | Three items with keys `SN`, `SC` and `PID` parse to their values. |
| QrParser.CanonicalItems | app.py:37 | `{SN:a,SC:b,PID:c}` with comma-free values, `c` not ending in a brace, splits into `SN:a`, `SC:b` and `PID:c`. |
| QrParser.CanonicalEntries | app.py:44-45 | `SN:a`, `SC:b` and `PID:c` give the keys `SN`, `SC` and `PID` with the trimmed values. |
| QrParser.ParseQrCanonical | app.py:37-53 | `{SN:a,SC:b,PID:c}` with comma-free values parses to `(strip(a), strip(b), strip(c))`, even when the values contain `:`. (The last value must not end in a brace.) |
| BarcodeParser.ParseBarcode | app.py:59-74 | Exactly one of data and error is present. |
| BarcodeParser.HasReserved | app.py:67 | `any(char in barcode_content for char in ['{', '}', ':', ','])`: some character of the content is one of `{`, `}`, `:`, `,` (the set `BarcodeParser.Reserved`). |
| BarcodeParser.Message | app.py:68-74 | The message the source returns for each failure: wrong format (app.py:68), empty content (app.py:72) and no barcode found (app.py:74). |
| BarcodeParser.MessagesDistinct | app.py:68-74 | The three messages are pairwise different, so an empty barcode is never reported with the format error's message. |
| BarcodeParser.ParseBarcodeErrors | app.py:62-74 | The failures, checked in order: "not found" exactly when there is no payload; "empty" exactly when the first payload is whitespace only; "wrong format" exactly when it has a non-whitespace character and any of `{ } : ,`. |
| BarcodeParser.ParseBarcodeSuccess | app.py:63-70 | On success, `sn` is the trimmed first payload. It is non-empty, contains none of `{ } : ,`, and is already trimmed. |
| BarcodeParser.ParseBarcodeAccepts | app.py:63-70 | Any first payload with a non-whitespace character and none of `{ } : ,` is accepted, whatever follows it. |
| BarcodeParser.ParseBarcodeFirstOnly | app.py:63 | Payloads after the first are ignored. |
| Records.Columns | app.py:142-148 | The keys of `new_record` in the order they are written: `stt, sn, sc, pid, note` for IMOU and `stt, sn, note` for HIK and Dahua (app.py:294-298, and app.py:443-447 for Dahua). This is also the column order of the DataFrame built at app.py:181. |
| Records.RequiredFields | app.py:137 | The form fields the save guard checks: `[sn, sc, pid]` for IMOU (app.py:137) and `sn` for HIK and Dahua (app.py:289 and 438). |
| Records.Field | app.py:119 | `item.get(sort_by, '')` for a text field: its value, or `''` when the record does not have it. |
| RecordSort.KeyOf | app.py:119 | The `key_func` lambda: `Number(stt)` when `sort_by == 'stt'`, otherwise the ASCII-lowered field, `''` when the field is missing. The index handlers sort by it through `KeyFunction(sortBy)`. (The HIK copy is at app.py:273 and the Dahua copy at app.py:422.) |
| RecordSort.Precedes | app.py:120 | The order the sort puts records in: the key order, turned round when `reverse=(direction == 'desc')` holds. |
| RecordSort.KeyLt | app.py:120 | Python's `<` on key values: integers numerically, strings by `StrLt`. A number is put before a word only to make the order total. |
| RecordSort.SortRecords | app.py:120 | The stable sort that `records.sort(key=key, reverse=desc)` computes, as insertion sort of the records in their original order. Each record is placed after every record it does not strictly go before. `SortBy` and `SortInPlace` are proved equal to it. |
| RecordSort.KeyLtIsStrictTotalOrder | app.py:119-120 | The key order is irreflexive, transitive and total. |
| RecordSort.PrecedesTotal | app.py:120 | Under either direction, of two different keys one goes before the other, and no key goes before itself. |
| RecordSort.PrecedesAsymmetric | app.py:120 | "Goes before" is asymmetric. |
| RecordSort.PrecedesTransitive | app.py:120 | "Goes before" is transitive. |
| RecordSort.NotPrecedesTransitive | app.py:120 | "Does not go after" is transitive. |
| RecordSort.InsertPermutes | app.py:120 | Inserting a record adds exactly that record to the multiset. |
| RecordSort.OrderedSnoc | app.py:120 | Appending a record that goes before none of an ordered sequence keeps it ordered. |
| RecordSort.InsertOrdered | app.py:120 | Inserting into an ordered sequence keeps it ordered. |
| RecordSort.InsertWithKey | app.py:120 | The inserted record goes after every record with its key. |
| RecordSort.SortRecordsPermutes | app.py:120 | The sort returns a permutation of its input. |
| RecordSort.SortRecordsOrdered | app.py:119-120 | The sorted records are non-decreasing by key, or non-increasing when `desc`. |
| RecordSort.SortRecordsStable | app.py:120 | For every key, the records with that key come out in their input order, in both directions. |
| RecordSort.SortRecordsIsStableSort | app.py:119-120 | The sort is a permutation, ordered and stable. |
| RecordSort.EqualKeysAdjacent | app.py:120 | In ordered records, every record between two records with equal keys has that key too. |
| RecordSort.KeyIgnoresCase | app.py:119 | Fields that differ only in letter case, such as `ABC` and `abc`, give the same text key. |
| RecordSort.SortInPlace | app.py:119-120 | Sorting in place with the handler's key matches the stable sort, in reverse exactly when `direction == 'desc'`. The result is a permutation of the old array, ordered, and stable per key. (The HIK copy is at app.py:273-274 and the Dahua copy at app.py:422-423.) |
| RecordSort.SortBy | app.py:120 | The insertion-sort loop leaves the array equal to the functional stable sort of its old contents. |
| RecordSort.SortRecordsPrefix | app.py:120 | Sorting one more input record inserts it into the sorted prefix. |
| RecordSort.InsertSlot | app.py:120 | One pass moves the next record into the sorted prefix, where insertion puts it, and leaves the rest of the array untouched. |
| RecordSort.InsertAt | app.py:120 | Insertion puts the record just after the last record it does not strictly go before. |
| RecordSort.PlacedAt | app.py:120 | The array after the inner loop is the insertion of the record into the old prefix. |
| RecordStore.FormField | app.py:132-135 | `request.form.get(name, '')`: the field's text, or `''` when it was not sent, which is the default `note` gets at app.py:135. The required fields are read this way only after the guard has found them present. |
| RecordStore.Accepts | app.py:137-139 | The save guard `not all([sn, sc, pid])` turned round: every required field (`sn`, `sc`, `pid` for IMOU, `sn` for HIK and Dahua) was sent and is not empty. (The HIK copy is at app.py:289-291 and the Dahua copy at app.py:438-440.) |
| RecordStore.NewFields | app.py:132-148 | The text fields of `new_record`: the required fields from the form, and `note`, which defaults to `''`. |
| RecordStore.NewFieldsKeys | app.py:142-148 | The new record has exactly the stored columns other than `stt`. |
| RecordStore.NewFieldsValues | app.py:132-148 | The required fields of the new record hold the form's values, and `note` is the form's `note`, or `''` when the form does not send it. |
| RecordStore.Append | app.py:137-149 | The store after one save: unchanged when the guard refuses the form, otherwise the old records with `new_record` at the end, its `stt` being `len(records) + 1`. |
| RecordStore.AppendSpec | app.py:137-150 | When the form is accepted, a save adds exactly one record at the end, numbered one more than the old length, and leaves the earlier records unchanged. When a required field is missing or empty, the store is unchanged. Numbering 1..N is preserved. (The HIK copy is at app.py:289-300 and the Dahua copy at app.py:438-449.) |
| RecordStore.SaveAllNumbersInOrder | app.py:137-150 | Starting from an empty store, the saves give records numbered 1..N in the order of the accepted forms, each with its form's fields. Refused saves leave no trace. |
| RecordStore.Store.constructor | app.py:19-22 | A store with no file yet is empty and numbered. |
| RecordStore.Store.Save | app.py:130-150 | The save reports whether the guard accepted the form, and the new records are `Append` of the old ones. A numbered store stays numbered. |
| Export.Header | app.py:183 | The header row written over the columns: `STT, SN, SC, PID, NOTE` for IMOU and `STT, SN, NOTE` for HIK and Dahua (app.py:312 and app.py:481). |
| Export.DecimalText | app.py:214 | `str(n)` for the integer `stt`: its decimal digits, with `-` in front of a negative number. |
| Export.CellText | app.py:214 | `str(cell.value)` of a data cell: `stt` in decimal, a text field as it is, and a missing field as the empty cell. |
| Export.SheetColumns | app.py:180-187 | The definition of the worksheet layout, not a property of it: one column per field, each holding the upper-case header cell and then one cell per record in store order. The width promises are proved in `Export.ExportWidths`. |
| Export.ColumnWidths | app.py:205-221 | Each column's width is at least every cell's length + 2 and equal to some cell's length + 2. A column with no cells gets width 2. |
| Export.ExportWidths | app.py:176-221 | An empty store is refused (app.py:176-179). Otherwise, through the width loop of app.py:205-221, each column's width is at least its header length + 2 and at least each data cell's length + 2, and it equals one of these. (The HIK copy is at app.py:307-308 and app.py:334-350; the Dahua copy is at app.py:476-477 and app.py:503-519.) |

## Left out

- Flask routing, templates, `flash` messages, redirects and the reading of
  `request.form` and `request.args`. This is web glue. The model starts from
  the form as a map and from `sort_by` and `direction` as strings.
- Image decoding with `cv2.imdecode` and pyzbar's `decode`. These are a
  foreign library. The QR parser starts from the decoded text, and the
  barcode parser starts from the list of decoded payloads as strings.
- The UTF-8 decode failure in `parse_barcode_data` (app.py:75-76). Payloads
  are already text in the model.
- JSON file I/O in `read_data` and `write_data`. A store is the list held in
  memory, and the constructor models "no file yet". An unreadable file
  (which reads as `[]`) and the write-back are not modelled.
- The clear and backup handlers (`os.rename` of the data file). This is a
  filesystem effect with no logic beyond a file-size test.
- `datetime.now()` timestamps in file names. This is a clock.
- Building the workbook with pandas and openpyxl: fonts, fills, borders and
  the HTTP response. Only the width arithmetic is modelled, over the
  worksheet's columns as text.
- Export.CellText: a missing field is rendered as the empty cell (pandas'
  default `na_rep`). The number `stt` is rendered in decimal.
- Export.ExportWidths: assumes every record has the fields of its product
  line, in the order the save handler writes them. Assigning `df.columns`
  raises when the records have a different number of keys. With the same
  number of keys under other names or in another order, pandas relabels the
  columns by position. Neither case is modelled.
- Text.Strip and Text.Lower: only the ASCII whitespace of `str.isspace` and
  the ASCII letters. Full Unicode stripping and case mapping are not
  modelled.
- RecordSort.KeyOf: `stt` is an `int` field of every record, so
  `int(item.get('stt', 0))` neither defaults nor raises.
- RecordSort.KeyLt: a number is ordered before a word only to make the key
  order total. Within one sort all keys are of the same kind, so Python
  never compares the two kinds.
- RecordSort.SortInPlace: Python's `list.sort` is Timsort. The model sorts
  by insertion sort. Both are stable sorts by the same key, so they produce
  the same order. `SortRecordsIsStableSort` proves that the model is a
  stable sort. That a stable sort's result is unique is not proved here.
