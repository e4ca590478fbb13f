# ILSVRC2012 devkit metadata, modelled in Dafny

This project models the metadata tooling for the ImageNet ILSVRC2012
development kit. It has three cooperating parts.

- **Record normalisation and persistence** (`imagenet_meta_to_sqlite.py`).
  - The synset entries decoded from `meta.mat` are flattened into one record per synset. The `_as_int` and `_as_str` field conversions are modelled, and so is the `make_headword` derivation (first lemma of `words`, trimmed, spaces to underscores).
  - The records are inserted into a SQLite store with two tables. `synsets` has an `INTEGER PRIMARY KEY` id, a `NOT NULL UNIQUE` wnid and a generated `omwid` column. `synset_children` has a composite primary key and two foreign keys.
  - The insert runs inside one transaction: entity rows first, then edge rows.
- **The in-memory taxonomy index** `ImageNetMeta` (`imagenet_meta.py`).
  - A dict of synsets keyed by ILSVRC2012 id.
  - The leaf ids (at most 1000) and internal ids, in dict order.
  - The `id_to_wnid`, `wnid_to_id` and `id_to_words` lookups.
  - `get_leaf_synsets` and `get_synset`.
- **Layout validation** `validate_imagenet_train` (`validate_imagenet_layout.py`).
  - The class folders under the training root are reconciled with the leaf wnids: missing folders first, then unexpected ones, each error listing the first five names in sorted order.
  - Optionally, each folder's image count is compared with `num_train_images`; a mismatch is a warning.

Modules, one file each:

| module | file | models |
|---|---|---|
| `Wrappers` | wrappers.dfy | `Option` / `Result` |
| `MatValues` | mat_values.dfy | decoded MATLAB field values; Python's `int()` and `str()` on them; decimal rendering of integers |
| `MetaRecords` | meta_records.dfy | `_as_int`, `_as_str`, `make_headword`, the record loop of `load_meta_from_tar` |
| `MetaDb` | meta_db.dfy | the schema's constraints, the statements `insert_metadata` issues, the transactional store `Database` |
| `TextOrder` | text_order.dfy | Python's ordering of `str` and `sorted()` of a set of names |
| `Taxonomy` | taxonomy.dfy | `Synset`, `ImageNetMeta` and its construction |
| `TrainLayout` | train_layout.dfy | `validate_imagenet_train` |

Modelling choices:

- **Decoded fields.** A field arrives already decoded as `Raw`: absent (`None`), a bare scalar, or an array of scalars. A scalar is an integer, a text string or a byte string. `squeeze()` and `int()` treat a one-element array as its element. `str()` of an array renders the whole array, whatever its length, and a squeezed one-element bytes array is a 0-d array rather than a `bytes` value, so `_as_str` renders it with `str()` instead of decoding it.
- **Foreign libraries are parameters.**
  - UTF-8 decoding, Python's `repr` of bytes and numpy's rendering of an array come in as functions of a `Library` value.
  - The filesystem comes in as a few values: whether the file or root exists, the set of root entries, and a per-folder image count.
- **The SQLite store** is three values:
  - a map from id to row;
  - the set of stored wnids;
  - the set of `(parent, child)` edges.

  One INSERT is a function `Step` that checks the constraints and either fails with a `Violation` or yields the new tables. `Run` chains statements and stops at the first violation, as `executemany` does. `Database.InsertMetadata` commits the result of both phases or, on any violation, leaves the tables as they were (the `with conn:` rollback).
- **Dict iteration order.** Python dicts iterate in insertion order. `Taxonomy.Index` keeps the keys in that order next to the map; assigning to an existing key keeps its place.

Two consequences of the code worth stating:

- A wnid shared by two synsets does not make `wnid_to_id` fail; the id met last is kept (`Taxonomy.WnidIndexLaterWins`).
- Edge rows are plain `INSERT`s with no conflict clause, so inserting an edge that already exists aborts the transaction (`MetaDb.EdgesPhase`).

## Model

| member | source | states |
|---|---|---|
| MatValues.Squeezed | src/ilsvrc2012_devkit/imagenet_meta_to_sqlite.py:60-70 | `squeeze()` yields an element exactly for a bare scalar or a one-element array, and that element is the one the field holds |
| MatValues.IntsOf | src/ilsvrc2012_devkit/imagenet_meta.py:63 | converting every child succeeds iff every element is an integer; the result keeps the length and each element in place |
| MatValues.ChildIds | src/ilsvrc2012_devkit/imagenet_meta.py:50-63 | absent children give `[]`; a bare scalar gives a one-element list; an array gives its integers in their original order; any non-integer element fails |
| MatValues.IntOf | src/ilsvrc2012_devkit/imagenet_meta.py:48 | `int()` of a field succeeds exactly when it squeezes to one integer, and gives that integer; an absent or empty field fails |
| MatValues.Decimal | src/ilsvrc2012_devkit/imagenet_meta.py:60-61 | `str()` of an integer is non-empty, starts with `-` exactly for negative numbers, and the digits after the optional sign are decimal digits without a leading zero that read back as the absolute value |
| MatValues.Digits | src/ilsvrc2012_devkit/imagenet_meta.py:60-61 | the digits of a natural number are non-empty decimal digits without a leading zero |
| MatValues.DigitsRoundTrip | src/ilsvrc2012_devkit/imagenet_meta.py:60-61 | reading the rendered digits back gives the number again |
| MetaRecords.AsInt | src/ilsvrc2012_devkit/imagenet_meta_to_sqlite.py:54-61 | absent and empty-array fields give None; a scalar or one-element array gives `Some` of its integer; a non-integer element or a longer array is an error |
| MetaRecords.AsStr | src/ilsvrc2012_devkit/imagenet_meta_to_sqlite.py:64-73 | None exactly for absent and empty-array fields; a bare bytes value is decoded as UTF-8, while a one-element bytes array is rendered by `str()`; text is kept; an integer is rendered in decimal; a longer array is rendered by numpy |
| MetaRecords.CommaIndex | src/ilsvrc2012_devkit/imagenet_meta_to_sqlite.py:90 | the position of the first comma, or the length when there is none |
| MetaRecords.FirstSegment | src/ilsvrc2012_devkit/imagenet_meta_to_sqlite.py:90 | `split(",")[0]`: a comma-free prefix, followed by a comma unless it is the whole text |
| MetaRecords.Strip | src/ilsvrc2012_devkit/imagenet_meta_to_sqlite.py:90 | `strip()`: a slice with no whitespace at either end; everything cut off is whitespace; empty iff the text is all whitespace |
| MetaRecords.Underscored | src/ilsvrc2012_devkit/imagenet_meta_to_sqlite.py:94 | `replace(" ", "_")`: same length, no space left, every space now `_` and every other character unchanged |
| MetaRecords.MakeHeadword | src/ilsvrc2012_devkit/imagenet_meta_to_sqlite.py:80-94 | None for None or `""` and for a blank first lemma; otherwise non-empty, free of commas and spaces, as long as the trimmed first lemma, and equal to it with each space replaced by `_` |
| MetaRecords.HeadwordOfEgyptianCat | src/ilsvrc2012_devkit/imagenet_meta_to_sqlite.py:18-20 | `"Egyptian cat, Felis catus"` gives `"Egyptian_cat"` |
| MetaRecords.HeadwordOfBlankFirstLemma | src/ilsvrc2012_devkit/imagenet_meta_to_sqlite.py:90-92 | `"   ,foo"` gives None |
| MetaRecords.StripKeepsTrimmed | src/ilsvrc2012_devkit/imagenet_meta_to_sqlite.py:90 | stripping text already trimmed changes nothing |
| MetaRecords.ToRecord | src/ilsvrc2012_devkit/imagenet_meta_to_sqlite.py:112-137 | a record is built iff every integer field and the children convert; its id, wnid, words, gloss, child count, children, height and image count are the converted fields, and its headword is `make_headword(words)` |
| MetaRecords.LoadRecords | src/ilsvrc2012_devkit/imagenet_meta_to_sqlite.py:110-140 | succeeds iff every entry converts, and then yields exactly one record per entry, in source order, with headword `make_headword(words)`, `[]` for absent children and array children in order |
| MetaDb.OmwIdOf | src/ilsvrc2012_devkit/imagenet_meta_to_sqlite.py:156-158 | `omwid` is `"omw-en-"`, the wnid without its first character, and `"-n"`, computed from the wnid alone; `"omw-en--n"` for an empty wnid |
| MetaDb.OmwIdInjective | src/ilsvrc2012_devkit/imagenet_meta_to_sqlite.py:156-158 | two non-empty wnids with the same first letter and the same `omwid` are equal |
| MetaDb.NextRowId | src/ilsvrc2012_devkit/imagenet_meta_to_sqlite.py:153 | a NULL `INTEGER PRIMARY KEY` gets a fresh id above every stored one, 1 in an empty table |
| MetaDb.Step | src/ilsvrc2012_devkit/imagenet_meta_to_sqlite.py:152-173 | an entity INSERT succeeds iff the wnid is given and new and a given id is new, a NULL wnid fails as such, and success adds exactly the row under its id (or the next rowid) and its wnid; an edge INSERT succeeds iff the parent is given, the edge is new and both ends are stored, and adds exactly that edge; nothing stored is lost or changed |
| MetaDb.Run | src/ilsvrc2012_devkit/imagenet_meta_to_sqlite.py:193-232 | a run that succeeds loses or changes nothing stored, and every statement in it had its wnid or its parent |
| MetaDb.StepKeepsConsistent | src/ilsvrc2012_devkit/imagenet_meta_to_sqlite.py:152-173 | an INSERT the constraints accept keeps the wnid set equal to the rows' wnids, wnids unique and every edge's ends stored |
| MetaDb.RunKeepsConsistent | src/ilsvrc2012_devkit/imagenet_meta_to_sqlite.py:152-173 | the same for any sequence of accepted INSERTs |
| MetaDb.RunAppend | src/ilsvrc2012_devkit/imagenet_meta_to_sqlite.py:192-232 | running two statement lists in turn is running their concatenation; a failure in the first skips the second |
| MetaDb.ChildParamsAt | src/ilsvrc2012_devkit/imagenet_meta_to_sqlite.py:227-231 | the edge parameter for child `j` of record `i` stands at position `TotalChildren(recs[..i]) + j` and is `(synset_id, c)` |
| MetaDb.ChildParams | src/ilsvrc2012_devkit/imagenet_meta_to_sqlite.py:227-231 | there are as many edge parameters as children in all records |
| MetaDb.Statements | src/ilsvrc2012_devkit/imagenet_meta_to_sqlite.py:193-231 | one entity row per record in record order, then only edge rows; as many statements as records plus children |
| MetaDb.ChildParamsMembers | src/ilsvrc2012_devkit/imagenet_meta_to_sqlite.py:227-231 | `(p, c)` is an edge parameter iff some record with id `p` lists child `c` |
| MetaDb.InsertOrder | src/ilsvrc2012_devkit/imagenet_meta_to_sqlite.py:222-231 | the edge row for child `j` of record `i` is `(synset_id, c)` and stands after all entity rows and the edge rows of earlier records and earlier children |
| MetaDb.RowsPhase | src/ilsvrc2012_devkit/imagenet_meta_to_sqlite.py:193-220 | the entity phase succeeds iff every record has a wnid and no id or wnid is already stored or repeated in the batch; it then adds exactly one row per record under its id and keeps old rows and edges |
| MetaDb.EdgesPhase | src/ilsvrc2012_devkit/imagenet_meta_to_sqlite.py:222-232 | the edge phase succeeds iff every parent is given, no edge is already stored or repeated, and both ends are stored ids; it then adds exactly those edges |
| MetaDb.CommitIff | src/ilsvrc2012_devkit/imagenet_meta_to_sqlite.py:192-232 | the whole insert succeeds iff the rows are admissible and the edges are admissible against the stored ids plus the batch's; it then stores exactly the old rows and the new |
| MetaDb.RowsNeedWnids | src/ilsvrc2012_devkit/imagenet_meta_to_sqlite.py:152-154 | with or without ids, the entity phase succeeds only if every wnid is given, not yet stored and not repeated in the batch |
| MetaDb.DuplicateWnidAborts | src/ilsvrc2012_devkit/imagenet_meta_to_sqlite.py:152-154 | two records with the same wnid make the insert fail, whether or not they carry ids |
| MetaDb.DanglingChildAborts | src/ilsvrc2012_devkit/imagenet_meta_to_sqlite.py:167-173 | a child id that is neither stored nor in the batch makes the insert fail |
| MetaDb.ReadBack | src/ilsvrc2012_devkit/imagenet_meta_to_sqlite.py:193-231 | after a successful insert, each record's row is stored under its id, and the child ids stored for it are exactly the record's children |
| MetaDb.ExecuteMany | src/ilsvrc2012_devkit/imagenet_meta_to_sqlite.py:193-220 | runs the statements one by one and returns exactly what `Run` specifies: the first violation or the final tables |
| MetaDb.Database.constructor | src/ilsvrc2012_devkit/imagenet_meta_to_sqlite.py:147-181 | a fresh schema has empty tables and satisfies the constraints |
| MetaDb.Database.InsertMetadata | src/ilsvrc2012_devkit/imagenet_meta_to_sqlite.py:188-232 | keeps the constraints; commits exactly the tables `Run` computes and reports no failure, or reports the violation and leaves the tables unchanged |
| TextOrder.Least | src/ilsvrc2012_devkit/validate_imagenet_layout.py:41 | the least name of a non-empty set under Python's string order |
| TextOrder.Sorted | src/ilsvrc2012_devkit/validate_imagenet_layout.py:41 | `sorted()` of a set: every element exactly once, strictly ascending |
| Taxonomy.TextOf | src/ilsvrc2012_devkit/imagenet_meta.py:60-61 | `str()` of a field: `"None"` when absent, text as is, an integer in decimal digits that read back as the number, bytes as their `repr`, any array as numpy renders it |
| Taxonomy.ToSynset | src/ilsvrc2012_devkit/imagenet_meta.py:47-66 | an entry becomes a synset iff its id, children and integer fields convert; its id, wnid, words, child count, children, height and image count are the converted fields |
| Taxonomy.Decode | src/ilsvrc2012_devkit/imagenet_meta.py:47-66 | every entry converts iff decoding succeeds, giving one synset per entry in order |
| Taxonomy.DecodeKeepsError | src/ilsvrc2012_devkit/imagenet_meta.py:47-66 | the first entry that fails decides the error of the whole construction |
| Taxonomy.Put | src/ilsvrc2012_devkit/imagenet_meta.py:58-66 | dict assignment: a new key goes last, an existing key keeps its place; keys stay distinct and every synset stays filed under its own id |
| Taxonomy.Build | src/ilsvrc2012_devkit/imagenet_meta.py:45-68 | the filled dict lists each key once and files every synset under its own `ilsvrc_id` |
| Taxonomy.BuildKeys | src/ilsvrc2012_devkit/imagenet_meta.py:45-66 | the keys are exactly the ids that occur |
| Taxonomy.BuildLastWins | src/ilsvrc2012_devkit/imagenet_meta.py:58-66 | for a repeated id the last entry is the one kept |
| Taxonomy.BuildOrder | src/ilsvrc2012_devkit/imagenet_meta.py:45-66 | the keys iterate in the order of their first occurrence |
| Taxonomy.LeafIds | src/ilsvrc2012_devkit/imagenet_meta.py:71 | `leaf_ids` holds exactly the keys up to 1000 |
| Taxonomy.InternalIds | src/ilsvrc2012_devkit/imagenet_meta.py:72 | `internal_ids` holds exactly the keys above 1000 |
| Taxonomy.FiltersAppend | src/ilsvrc2012_devkit/imagenet_meta.py:71-72 | both lists keep dict order: filtering a concatenation gives the filtered parts in turn |
| Taxonomy.FiltersPartition | src/ilsvrc2012_devkit/imagenet_meta.py:71-72 | the two lists together are as long as the key order |
| Taxonomy.WnidsById | src/ilsvrc2012_devkit/imagenet_meta.py:75 | `id_to_wnid` has the keys of `synsets` and maps each to its synset's wnid |
| Taxonomy.WordsById | src/ilsvrc2012_devkit/imagenet_meta.py:77 | `id_to_words` has the keys of `synsets` and maps each to its synset's words |
| Taxonomy.WnidIndex | src/ilsvrc2012_devkit/imagenet_meta.py:76 | every wnid of a synset has an entry, and each entry leads to a synset with that wnid |
| Taxonomy.WnidIndexLaterWins | src/ilsvrc2012_devkit/imagenet_meta.py:76 | for a shared wnid, the id met last in dict order wins, silently |
| Taxonomy.WnidRoundTrip | src/ilsvrc2012_devkit/imagenet_meta.py:75-76 | with distinct wnids, `wnid_to_id[id_to_wnid[i]] == i` |
| Taxonomy.ImageNetMeta.FromIndex | src/ilsvrc2012_devkit/imagenet_meta.py:68-77 | the fields assigned from the filled dict satisfy the index invariant |
| Taxonomy.ImageNetMeta.LeafSynsets | src/ilsvrc2012_devkit/imagenet_meta.py:79-80 | `get_leaf_synsets` returns `synsets[i]` for each `i` of `leaf_ids`, in that order and with the same length; each has id `i` of at most 1000 |
| Taxonomy.ImageNetMeta.GetSynset | src/ilsvrc2012_devkit/imagenet_meta.py:82-83 | `get_synset(i)` returns `synsets[i]`, whose id is `i`, and a KeyError exactly when `i` is not a key |
| Taxonomy.LeafPartition | src/ilsvrc2012_devkit/imagenet_meta.py:71-72 | the leaf and internal lists are disjoint, together cover exactly the keys, and a key is a leaf iff it is at most 1000 |
| Taxonomy.LookupViews | src/ilsvrc2012_devkit/imagenet_meta.py:75-77 | the three lookups agree with `synsets` and have its key set; every `wnid_to_id` entry leads back to a synset with that wnid |
| Taxonomy.IndexedSize | src/ilsvrc2012_devkit/imagenet_meta.py:45-66 | the dict has as many entries as its key order |
| Taxonomy.Open | src/ilsvrc2012_devkit/imagenet_meta.py:37-68 | a missing file fails first; a malformed entry fails with the first decoding error; otherwise a fresh valid index holding exactly the dict the loop builds |
| TrainLayout.ExpectedWnids | src/ilsvrc2012_devkit/validate_imagenet_layout.py:29-31 | the expected names are exactly the wnids of the synsets with id at most 1000, and each resolves through `wnid_to_id` |
| TrainLayout.FoundWnids | src/ilsvrc2012_devkit/validate_imagenet_layout.py:33-35 | the found names are exactly the names of directory entries |
| TrainLayout.Preview | src/ilsvrc2012_devkit/validate_imagenet_layout.py:41 | `sorted(names)[:5]`: at most five distinct names of the set, ascending |
| TrainLayout.PreviewSmallest | src/ilsvrc2012_devkit/validate_imagenet_layout.py:41 | a name left out of the preview comes after every name shown, and the preview then has five names |
| TrainLayout.CountWarnings | src/ilsvrc2012_devkit/validate_imagenet_layout.py:46-55 | one warning per name whose image count differs from the recorded count, none for the others, each with both counts and no name twice |
| TrainLayout.ValidateTrain | src/ilsvrc2012_devkit/validate_imagenet_layout.py:20-57 | a missing root fails first; missing folders fail before unexpected ones, each with the sorted five-name preview; success iff the found names equal the expected ones; without count checking no warnings, with it exactly the count mismatches |

## Left out

- Opening the devkit tarball and `scipy.io.loadmat`: the model starts from the decoded entries (`RawSynset`), since both are foreign libraries.
- numpy specifics beyond the case split the code makes. With `squeeze_me=True` the loader may hand a single child over as a numpy scalar, which has `tolist`. `MatValues.ChildIds` treats a bare scalar as the one-element list the `else` branch of `imagenet_meta.py` intends.
- MatValues.IntOf: `int()` of a text or bytes scalar is modelled as a decoding error, although Python parses numerals in text; meta.mat stores these fields as numbers.
- MetaRecords.AsInt: the same holds for `_as_int`; numeric text or bytes is an error here, where Python would parse it.
- MatValues.ChildIds: the same holds for each child id; numeric text or bytes is an error here.
- MatValues.IntsOf: the same holds for each element; numeric text or bytes is an error here.
- UTF-8 decoding, `repr` of bytes and numpy's rendering of arrays are opaque functions of `MatValues.Library`.
- SQLite engine mechanics are left out: `executescript`, `PRAGMA foreign_keys`, opening and closing connections, and the two secondary indexes, which affect only performance.
- MetaDb.Step: when one INSERT breaks several constraints at once, SQLite's choice of which error to raise is approximated as NOT NULL first, then the primary key, then UNIQUE, then the foreign keys. Only the kind of violation reported depends on this, not whether the transaction commits.
- MetaDb.NextRowId: SQLite's fallback to a random free rowid once the largest rowid reaches 2^63-1 is not modelled; ids are unbounded integers.
- MetaDb.CommitIff: stated for batches whose records all carry an id; a record without one gets `NextRowId` and is covered by `MetaDb.Step`, `MetaDb.Run` and `MetaDb.Database.InsertMetadata`.
- MetaDb.ReadBack: stated for batches whose records all carry an id, for the same reason.
- MetaDb.RowsPhase: stated for batches whose records all carry an id; `MetaDb.RowsNeedWnids` gives the wnid conditions without that assumption.
- MetaDb.DanglingChildAborts: stated for batches whose records all carry an id, since a missing id takes the next rowid, which may be the child's.
- `main()`: path handling, deleting an old database file, printing.
- Error message strings and printed warnings: results are datatypes carrying the preview lists and the warnings.
- The filesystem (`exists`, `iterdir`, `is_dir`, `glob("*.JPEG")`) is passed in as values: whether the file or root exists, the set of root entries, and a per-folder image count.
- TrainLayout.CountWarnings: Python iterates the expected set in an unspecified order; the model picks any remaining name, so the warnings are specified as a set of distinct names rather than as a sequence in a fixed order.
