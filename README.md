# fit: the flat-file record store, modelled in Dafny

`fit.py` is a small issue tracker. It keeps its data in one versioned,
human-editable text file. The file holds a `Version=` line, a `[Config]` block
of `key=v1;v2;` lines and an `[Entries]` block of rows. This project models
the store in Dafny and proves properties of the model:

- **the two escaping codecs.** `_escape`/`_unescape` are used by format 1.
  `escape`/`unescape` take a set of special characters and are used by format 2
  with the set `{'"'}` (module `Escaping`);
- **the two entry serializers**, `FlyEntrySerializerVer1` and
  `FlyEntrySerializerVer2` (modules `ConfigBlock`, `RowsV1`, `RowsV2`,
  `Serializer`). The file is the list of lines `readline` returns, and
  `tell`/`seek` become a cursor into that list (module `TextFile`);
- **the table `FlyDb`** (modules `Store`, `Table`, `Records`): reload, write,
  append with defaults, keyed partial update, `change_row`, filtered query,
  the column, dictionary and colour lookups, and `place_before` with
  `_update_index`;
- **the `$(name)` template expander `replace_all`** (module `Template`).

A row is a value: its fields plus the trailing position slot (`r[8]`).
`FlyDb` is a class with fields `rows`, `rowmap` and `cfg`, and its methods
reassign them. In the source `rowmap` maps an Id to the row list itself. Here
it maps an Id to the row's index in `rows`. The operations that move rows
(`place_before`) move the indices with them, so every Id keeps naming the row
the source's alias names.

The file is modelled as its text, with `None` where it cannot be opened.
`LinesOf(text)` gives what the successive `readline` calls return, under
universal newlines. `write_db` returns the text it would write: each `print`
argument followed by a newline. The generated Id and the two timestamps of a
new row come in as a `Stamps` parameter. A Python exception that ends an
operation is modelled as an error result (`None`, `Err`, `false`) with the
state the source leaves at that point.

Every loop of the codecs, the serializers, the store's mutators and
`replace_all` is a `method` with its invariants. Each such method is proved
equal to a function, and the properties are lemmas about those functions:

- `Escape1`/`Unescape1`/`Escape`/`Unescape` and `ReplaceAll` (the character
  loops);
- `ReadConfigBlock`, `ReadEntriesBlock`, `ReadRow`, `ReadRowLoop`, `ReadAll`,
  `WriteAll` (the readline loops and the print loops);
- `FieldIdx`, `ApplyDict`, `BuildRow`, `UpdateIndex`, `IndexRows` (the table
  loops).

The store's methods that change state state the whole new state. The
expressions over the current state are functions: the comprehensions of
`_read_config` (fit.py:121), `get_rows` and `get_rows_as_dict` are
`ConfigBlock.NonEmptyStripped`, `Table.Filter` and `Store.FlyDb.GetRowsAsDict`,
and the index loop of `_make_dict` is the recursive `Table.MakeDict`.

Where the source and its design description disagree, the model follows the
source:

- The design describes `escape`/`unescape` as inverse for every string and
  every special set. The code doubles each backslash when `\` is not in the
  set, which is the case for format 2's `{'"'}`. `Escaping.UnescapeEscape`
  states the exact result, and `Escaping.BackslashDoubles` shows a single
  backslash coming back as two.
- The design says a failed load leaves the default configuration. In the code,
  a file with a known version and a `[Config]` block but no `[Entries]` block
  keeps the file's configuration: `self.cfg` is assigned before
  `data["Entries"]` raises. A failed load also keeps the version it read.
  `Store.Load` models both.
- The design promises a round trip for any row, including empty fields, fields
  with surrounding blanks and, in format 2, backslashes. The code strips every
  field, stops at an empty row, and doubles backslashes in format 2. The
  round-trip lemmas therefore assume conditions under which writing and
  reading give back the rows (`GoodRows`, `GoodConfig`). These conditions are
  sufficient, not necessary.
- The design says a missing value defaults to the empty string. In the code, a
  column name without a default raises `KeyError` in `add_row_from_dict`, and
  nothing is appended (`Store.DefaultOf`).

## Model

| member | source | states |
|---|---|---|
| Escaping.Escaped1 | fit.py:42-53 | the format-1 escape of any string contains no `;` and no newline |
| Escaping.Escape1 | fit.py:42-53 | the character loop of `_escape` returns exactly the format-1 escape of its input |
| Escaping.Unescape1 | fit.py:24-40 | the character loop of `_unescape`, with its `last` flag, returns exactly the format-1 decoding |
| Escaping.Unescape1Escape1 | fit.py:24-53 | `_unescape(_escape(s)) == s` for every string `s` |
| Escaping.Unescape1Unknown | fit.py:33-38 | an escape `\c` with `c` other than `s` and `n` decodes to `c`, dropping the backslash |
| Escaping.Escaped1Avoids | fit.py:42-53 | a character absent from `s` and not among `\`, `s`, `n` is absent from `_escape(s)` |
| Escaping.Escaped1Edges | fit.py:42-53 | `_escape(s)` starts with `s`'s first character or `\`, and ends with `s`'s last character or an escape letter |
| Escaping.Escape | fit.py:74-85 | the character loop of `escape` returns exactly the escape of its input under the special set |
| Escaping.Escaped | fit.py:74-85 | every character of `escape(s, chars)` other than `\` comes from `s` or is an escape letter `n`, `r`, `t` |
| Escaping.Unescape | fit.py:55-72 | the character loop of `unescape` returns exactly the decoding under the special set |
| Escaping.UnescapeEscape | fit.py:55-85 | `unescape(escape(s, C), C)` is `s` when `\` is in `C`, and otherwise `s` with every backslash doubled (for sets without `n`, `r`, `t`) |
| Escaping.UnescapeEscapeNoBackslash | fit.py:55-85 | `unescape(escape(s, C), C) == s` for every `s` without a backslash |
| Escaping.BackslashDoubles | fit.py:55-85 | for a special set without `\`, a lone backslash comes back as two |
| Escaping.UnescapeKeeps | fit.py:64-70 | an escape whose decoded character is not special is kept as backslash plus character |
| Escaping.EscapeIdentity | fit.py:74-85 | a string with no backslash and no special character is unchanged by `escape` |
| Escaping.EscapedQuoteEdges | fit.py:74-85 | escaping a backslash-free string with `{'"'}` never starts with a quote, and ends with a quote exactly when the string does |
| Text.SplitSpec | fit.py:120-121 | `str.split` gives pieces without the separator that joined with it give back the string |
| Text.SplitJoin | fit.py:133-135 | splitting a separator-free join gives back the pieces |
| Text.StripInSpec | fit.py:232 | `strip(chars)` leaves none of those characters at either end, changes a string whose ends are outside them, and empties a string made only of them |
| TextFile.LinesOfPrinted | fit.py:268-271 | reading back the lines printed to a file gives each printed string with a newline, when none holds a line break |
| Records.Lookup | fit.py:330-331 | a dictionary lookup succeeds exactly for a present key, and gives the value stored under it |
| Records.PutLookup | fit.py:121 | after `d[key] = v`, `key` maps to `v` and every other key is unchanged |
| Records.PutUnique | fit.py:121 | assigning a key keeps the dictionary's keys distinct |
| ConfigBlock.ReadConfigBlock | fit.py:112-122 | the loop of `_read_config` returns exactly the result of reading the block from the cursor |
| ConfigBlock.ReadConfigStops | fit.py:114-119 | a config block that reads successfully leaves the cursor, at or after its start, on a line of the input that starts with `[` |
| ConfigBlock.ReadConfigUnique | fit.py:113-121 | the configuration read has distinct keys |
| ConfigBlock.NonEmptyStripped | fit.py:121 | the kept values are non-empty, and no more than were split |
| ConfigBlock.ValuesOfWritten | fit.py:108-121 | the values of a written `key=v;v;` line read back as the same list |
| ConfigBlock.ParseWrittenLine | fit.py:106-121 | a written config line is one line and parses back to its key and values |
| ConfigBlock.ReadWrittenConfig | fit.py:105-122 | the written `[Config]` lines followed by a section tag read back as the same configuration, with the cursor on the tag |
| RowsV1.ReadRow | fit.py:132-135 | `_read_row` returns the decoded fields of the next line, and the cursor moves past it |
| RowsV1.RowOfLineSpec | fit.py:132-135 | a line gives the empty row exactly when it has no `;`, and otherwise one field per `;` |
| RowsV1.RowAtEnd | fit.py:132-135 | at end of input `_read_row` returns the empty row |
| RowsV1.ReadEntriesBlock | fit.py:123-131 | the loop of `_read_entries` returns exactly the rows and cursor of reading the block |
| RowsV1.ReadEntriesSpec | fit.py:123-135 | the rows read are the rows of the successive lines, numbered on from those read before, up to the first line without `;`, which is consumed |
| RowsV1.ReadEntriesShape | fit.py:123-131 | the rows read carry positions 0..n-1 and at least one field each |
| RowsV1.RowLineShape | fit.py:111 | a written row is one line and contains `;` |
| RowsV1.ReadField | fit.py:111-134 | a field without carriage return and without blanks at its ends, a newline apart, reads back as itself after escaping and stripping |
| RowsV1.ReadRowLine | fit.py:110-135 | a written row line reads back as the same fields |
| RowsV1.ReadWrittenRows | fit.py:105-135 | written rows followed by a line without `;` read back as the same fields, numbered 0..n-1 |
| RowsV2.ReadRowLoop | fit.py:176-200 | the loop of Ver2 `_read_row`, with `rawvalues`, returns exactly the row and cursor of reading from there |
| RowsV2.ReadRowProgress | fit.py:176-200 | reading a row never moves the cursor back or past the end, and moves it whenever it yields a row |
| RowsV2.ReadRowUnclosed | fit.py:179-182 | reaching end of input inside a row yields no row |
| RowsV2.ReadRowAtEnd | fit.py:180-182 | at end of input `_read_row` returns the empty row |
| RowsV2.ReadEntriesBlock | fit.py:167-175 | the loop of Ver2 `_read_entries` returns exactly the rows and cursor of reading the block |
| RowsV2.ReadEntriesProgress | fit.py:167-175 | reading the entries leaves the cursor between its start and the end of input |
| RowsV2.ReadEntriesShape | fit.py:167-175 | the rows read carry positions 0..n-1 and at least one field each |
| RowsV2.RowTextLines | fit.py:155 | the printed row text is the quoted escaped fields, one per line, followed by `----` |
| RowsV2.FieldLine | fit.py:155-190 | a written field line is one line, ends in a quote, is not `----`, and unquotes and unescapes back to the field |
| RowsV2.ReadWrittenRow | fit.py:176-200 | the lines written for one row read back as its fields, with the cursor past `----` |
| RowsV2.ReadWrittenRows | fit.py:149-200 | written rows followed by an empty row read back as the same fields, numbered 0..n-1 |
| Serializer.ReadAll | fit.py:96-104 | the loop of `read_all` returns exactly the sections read from the cursor, or the error raised |
| Serializer.ReadAllShape | fit.py:96-131 | the entries `read_all` returns carry positions 0..n-1 and at least one field each |
| Serializer.ReadEntriesOf | fit.py:123-131 | reading the entries block never moves the cursor back or past the end |
| Serializer.ReadAllEnd | fit.py:98-103 | at end of input `read_all` returns what it has gathered |
| Serializer.ReadAllConfig | fit.py:99-101 | a `[Config]` tag hands the next lines to the config reader and goes on after the block |
| Serializer.WriteRow | fit.py:111 | the string Ver1 or Ver2 prints for a row is exactly that row's text |
| Serializer.WriteAll | fit.py:105-111 | the strings `write_all` prints are the config header, the config lines, the entries header and one string per row |
| Serializer.HeaderTags | fit.py:99 | the two printed headers read back as the tags `Config` and `Entries` |
| Serializer.PrintedFile | fit.py:149-155 | the printed text of `write_all` equals the text of its line list, each Ver2 row spread over one line per field |
| Serializer.FileLinesNoBreak | fit.py:105-111 | no written line holds a line break when the configuration and rows are good |
| Serializer.ReadWrittenEntries | fit.py:123-135 | written good rows read back from the entries block as the same rows, numbered, with the cursor at the end |
| Serializer.ReadWrittenAll | fit.py:96-135 | the written sections read back as the same configuration and rows, for either format |
| Serializer.ReadWrittenText | fit.py:96-155 | reading the printed text of `write_all` gives back the same configuration and rows |
| Store.VersionRead | fit.py:231-232 | the `Version=` line of a known version reads back as that version |
| Store.ReadFile | fit.py:225-241 | the steps of `reload_db` give exactly the outcome `Load` defines |
| Store.IndexRows | fit.py:237-238 | the loop that fills `rowmap` builds exactly the index of the rows' Ids |
| Store.LoadShape | fit.py:225-241 | after a reload, rows carry positions 0..n-1, each has an Id, `rowmap` is their index, and a failed reload leaves no rows |
| Store.LoadRead | fit.py:229-241 | a file whose version is known and whose sections both read back loads successfully with that version, configuration and rows |
| Store.SavedLines | fit.py:263-271 | the file `write_db` writes consists of the version line followed by the written sections |
| Store.SavedRead | fit.py:263-271 | the version line of the written file reads back, and the rest reads back as the same configuration and rows |
| Store.LoadSaved | fit.py:225-271 | reloading what `write_db` wrote gives back the same version, configuration, rows and index |
| Store.DefaultsOfSpec | fit.py:307-309 | the defaults of a column list exist exactly when every column has one, and then they are those in column order |
| Store.DefaultOfColumns | fit.py:205-208 | the default of each of the eight columns: Id and dates from the stamps, Parent `none`, Title and Description empty, Type and Status the first configured default |
| Store.DefaultsOfFields | fit.py:205-249 | the eight columns have defaults exactly when `Type.Default` and `Status.Default` have a first value, and they are the listed defaults |
| Store.DefaultConfigSchema | fit.py:216-224 | the default configuration has the eight-column `Fields`, type default `Todo` and status default `Backlog` |
| Store.NewRowDefault | fit.py:306-314 | a column no key of the request names holds its default in the new row |
| Store.NewRowNamed | fit.py:311-314 | a column a key names, ignoring case, holds the value of the last key naming it |
| Store.NewRowWidth | fit.py:307-309 | a new row has the eight columns |
| Store.AppendedShape | fit.py:310-315 | appending an eight-column row at the next position keeps the rows numbered by index and eight wide |
| Store.PlacedFollows | fit.py:336-342 | after the move the rows are numbered by index, the moved row sits at the target index, every row comes from an old row, and every Id still names its row |
| Store.PlacedShape | fit.py:336-342 | the move keeps every row eight wide and every index inside the table |
| Store.PlacedAtEnd | fit.py:339-341 | the target `"empty"` moves the row to the last index |
| Store.FlyDb.constructor | fit.py:203-215 | a new store holds what a reload from the default state gives, with the requested output version |
| Store.FlyDb.Reload | fit.py:225-241 | `reload_db` leaves the state and returns the result `Load` defines, and keeps rows numbered and the index inside the table |
| Store.FlyDb.UpdateIndex | fit.py:250-254 | each row's position slot becomes its index; nothing else changes |
| Store.FlyDb.WriteDb | fit.py:263-271 | `write_db` writes the text `Saved` defines for the output version (or the version read) |
| Store.FlyDb.GetColumns | fit.py:272-273 | `get_columns` succeeds exactly when `Fields` is configured |
| Store.FlyDb.GetConfig | fit.py:330-331 | `get_config` succeeds exactly when the key is configured |
| Store.FlyDb.FieldIdx | fit.py:299-305 | `_field_idx` returns the first column equal to the name ignoring case, or -1 |
| Store.FlyDb.ApplyDict | fit.py:311-314 | the loop over the request writes each named column, in request order |
| Store.FlyDb.BuildRow | fit.py:307-314 | the row built is each column's default, then the request's values; None where a default raises |
| Store.FlyDb.AddRowFromDict | fit.py:306-316 | appends exactly one row with position = old count and indexes it under its Id, or changes nothing where a default raises; configuration unchanged, schema kept |
| Store.FlyDb.UpdateRowFromDict | fit.py:317-325 | succeeds exactly when the request has key `Id` naming an indexed row, and then rewrites only the named columns of that row; otherwise nothing changes |
| Store.FlyDb.ChangeRow | fit.py:334-335 | sets only the status column of the row with that Id; an unknown Id changes nothing |
| Store.FlyDb.GetRows | fit.py:326-327 | the rows returned are exactly the table's rows that pass every given filter |
| Store.FlyDb.GetRowsAsDict | fit.py:328-329 | one dictionary per matching row, mapping each column name to the row's value |
| Store.FlyDb.GetColorConfig | fit.py:332-333 | succeeds exactly when both keys exist and there are enough colours; the result maps each name to the colour at its last position in the list and holds no other key |
| Store.FlyDb.PlaceBefore | fit.py:336-344 | changes nothing where a lookup raises; otherwise the rows are the old rows with the mover moved to the target's old index, renumbered, and the index follows the rows |
| Table.ColumnOfSpec | fit.py:299-305 | the column found matches the name ignoring case, and no earlier column does (none does when -1 is returned) |
| Table.AppliedUntouched | fit.py:321-324 | a column no key names keeps its value |
| Table.AppliedLast | fit.py:321-324 | a column a key names takes the value of the last key naming it |
| Table.FilterMembers | fit.py:280-293 | a row is in the query result exactly when it is in the table and passes every given filter |
| Table.FilterAppend | fit.py:326-327 | the query keeps table order: filtering a concatenation is the concatenation of the filtered parts |
| Table.FilterNone | fit.py:280-293 | with no filter given, the query returns the whole table |
| Table.MakeDictDefined | fit.py:294-298 | `_make_dict` succeeds exactly when there are at least as many values as keys, and its keys are distinct |
| Table.MakeDictLookup | fit.py:294-298 | a key maps to the value at the position of its last occurrence among the keys |
| Table.MakeDictMissing | fit.py:294-298 | a name not among the keys is absent from the dictionary |
| Table.MakeDictAll | fit.py:294-298 | with enough values, every key maps to the value at its last position and no other name is a key |
| Table.RowDictSpec | fit.py:328-329 | a row's dictionary maps each column name to the row's value in that column |
| Table.IndexOfSpec | fit.py:237-238 | an Id is indexed exactly when some row has it, and it names the last such row |
| Table.MovedSpec | fit.py:340-341 | deleting at `p` and inserting at `t` puts the mover at `t`, keeps the others in order, and tracks where each row goes |
| Table.MovedPerm | fit.py:340-341 | the move is a permutation of the rows |
| Table.MovedBeside | fit.py:336-341 | a row moved forward lands after its target; a row moved back lands before it |
| Template.ReplaceAll | fit.py:361-388 | the three-state character loop returns exactly the expansion of the template |
| Template.ExpandVar | fit.py:366-373 | `$(k)` becomes `vals[k]` when `k` is a key, and is re-emitted otherwise |
| Template.ExpandDollarOther | fit.py:376-382 | `$c` with `c` other than `(` is re-emitted |
| Template.ExpandUnterminated | fit.py:361-388 | a trailing lone `$` or an unterminated `$(name` is dropped |
| Template.NoDollarUnchanged | fit.py:383-387 | a text without `$` is returned unchanged |

## Left out

- `FlyServer`, `main` and argument parsing: HTTP routing, HTML building and static files, not part of the store.
- `_encode_wiki`: a call into the external `markdown` library.
- `Git`: a subprocess call.
- `printall`: writes to standard output only.
- `_gen_id` and `_get_date`: SHA-1 of the clock and the clock itself. Their results come in as `Store.Stamps`.
- `query_split` and `js_query_split`: URL-decoding glue of the web layer, outside the store.
- `get_row_count`, `get_row` and `get_all_rows`: direct reads of `len(rows)`, `rows[n]` and `rows`, which are fields of the model.
- Real file I/O: opening, truncating and closing the file, and the `with` blocks. The file is its text, and `tell`/`seek` are a cursor.
- The bare `except:` in `reload_db` and `place_before`: only the concrete failures are modelled. These are a file that cannot be opened, a version line without `=`, an unknown version, a config block that runs to the end, a missing section, a missing Id, and `"empty"` in an empty table.
- Python's Unicode `str.lower` and `str.strip`: the model lowers ASCII letters and strips ASCII whitespace.
- Store.FlyDb.ChangeRow: takes a status string, so the default `status=None`, which stores `None` in the row, is not modelled.
- Store.FlyDb.AddRowFromDict: requires the eight-column `Fields` schema with every row eight wide, because the store hard-codes the column numbers 0, 1, 6, 7 and 8.
- Store.FlyDb.UpdateRowFromDict: requires the same schema, for the same reason.
- Store.FlyDb.GetRows: requires the same schema, because `_row_match` indexes columns 0, 1, 6 and 7.
- Store.FlyDb.PlaceBefore: requires the same schema, and uses the index `rowmap` keeps rather than the row's position slot `r[8]`; the two agree because every row's slot is its index.
- Store.FlyDb.Reload: a row read with fewer than eight fields is not rejected, so the schema is only known after a reload that gives eight-column rows.
- `rowmap` aliasing: rows are values and `rowmap` holds indices. Two rows with the same Id, or a row whose Id is changed by an update, are followed as the alias would follow them. In-place mutation of a row object shared elsewhere is not modelled.
- RowsV1.ReadWrittenRows: the format-1 round trip is proved for rows with at least one field, no carriage return, and no blank other than a newline at either end of a field. These conditions are sufficient; the lemma does not claim they are necessary.
- RowsV2.ReadWrittenRows: the format-2 round trip is proved only for rows with at least one field and no field that contains a backslash or a line break or ends in `"`. Multi-line fields are left out. The code also carries such a field back when each of its lines has no blanks at either end, is not `----`, and does not end in `"`, but the model does not prove that case.
- ConfigBlock.ReadWrittenConfig: the round trip holds for distinct keys without `=`, blanks at the ends or a leading `[`, and for non-empty values without `;`, `=`, line breaks or surrounding blanks.
