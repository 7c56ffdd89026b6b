# clipack core in Dafny

This project models the three core components of the `clipack` command-line
assistant and proves properties of the model:

- **Contacts** (`clipack/clipack/classes.py`). It models the validated
  fields `FirstName`, `SecondName`, `Phone`, `Birthday`, `Email` and
  `Address`, and the `Record` contact with its mutators and
  `days_to_birthday`. It also models the `AddressBook`: records in insertion
  order, keyed by name, with add, find, delete, the birthday query,
  `find_info` and the paging iterator.
- **Notes** (`clipack/clipack/notebook.py`). It models `Note` and the
  `NoteBook` list with add, tag append, edit, delete by index and by title,
  the two searches and the stable sort by tags.
- **File sorting** (`clipack/clipack/file_sorter.py`). It models the
  category table and the Cyrillic transliteration table, the `pathlib`
  split of a file name into stem and suffix, `normalize`, and
  `find_file_type` with the three sets and maps it updates.

Modules follow the program:

- `Base`: error kinds, `Option`, `Result` and `Outcome`.
- `Text`: character classes, `in` on strings, `upper`, string order.
- `Seqs`: list comprehension with a filter, and `list.index`.
- `Calendar`: `datetime.date`, `toordinal`, `replace` and
  `strptime('%d-%m-%Y')`.
- `Fields`: the field validators and the e-mail pattern.
- `Contact`: `Record` and `days_to_birthday`.
- `Book`: `AddressBook`.
- `Notes`: `Note` and `NoteBook`.
- `FileSort`: `FileSorter`.

Objects that the source mutates are classes:

- `Record`. Its name is a `const`, because no operation changes it.
- `AddressBook`. It holds a key list for the dictionary's insertion order
  next to the map.
- `NoteBook`.
- `FileSorter`.

Each mutator states its whole new state. Raising an exception is an `Err`,
`Fail` or `None` result that leaves the state unchanged, with one
exception: when one of the deletions of `delete_note_by_title` raises
`IndexError`, the deletions made before it stay, and the result is `Fail`
with the notes those deletions left (`DeleteAll`). The current date,
which the source reads from the clock, is a parameter. A `Path` argument is
represented by the file's name.

Where the source's behaviour is surprising, the model follows the code:

- `remove_phone` removes from the list while iterating over it. The number
  after each removed one is therefore never examined: two adjacent copies
  leave one behind (`RemoveScan`).
- `delete_note_by_title` computes all matching indices first and deletes
  them one after another. Each deletion shifts the later notes, so a later
  index can name the wrong note or run past the end and raise
  `IndexError` (`DeleteAll`).
- The digit branch of `find_info` tests `key not in request`. The list
  `request` holds whole result lines, each starting `Contact name: `, while
  `key` is a name made of letters only, so the name is never one of the
  lines and the test always holds. It filters nothing out, and a record
  therefore appears once per matching phone number, not once
  (`PhoneHits`).
- `add_note_tags` appends the new tags in both branches of its conditional.
- The e-mail check uses `re.match`, which matches at the start of the
  string only. Any rest that does not begin with a word character is
  accepted (`EmailParts`).
- `edit_phone` does not check whether the new number is already on the
  list, so a record can end up holding a number twice.

## Model

| member | source | states |
|---|---|---|
| Fields.NewFirstName | clipack/clipack/classes.py:31-50 | a first name is accepted exactly when it is a non-empty string of letters, and is stored unchanged; otherwise `ValueError` |
| Fields.NewSecondName | clipack/clipack/classes.py:53-72 | a second name is accepted exactly when it is absent or a non-empty string of letters, and stored as given; otherwise `ValueError` |
| Fields.NewPhone | clipack/clipack/classes.py:90-99 | a phone number is accepted exactly when it has ten characters, all digits; otherwise `ValueError` |
| Fields.NewBirthday | clipack/clipack/classes.py:102-126 | a birthday is accepted exactly when absent or readable as `%d-%m-%Y`; the stored value is absent iff the input is, is the parsed date otherwise, and is always a real date |
| Fields.NewEmail | clipack/clipack/classes.py:129-148 | an e-mail address is accepted exactly when absent or matched by the pattern at its start; otherwise `ValueError` |
| Fields.EmailMatchesIff | clipack/clipack/classes.py:137 | the recogniser accepts a string iff it is a local part (a letter, then at least one more letter, digit, '.' or '_'), '@', a domain of letters and digits, '.', two or more letters, and a rest not starting with a word character |
| Fields.EmailPartsMatch | clipack/clipack/classes.py:137 | every string assembled from pieces of the pattern's form is accepted |
| Fields.EmailMatchSplits | clipack/clipack/classes.py:137 | every accepted string splits into pieces of the pattern's form |
| Fields.SpanFacts | clipack/clipack/classes.py:137 | the run a character class of the pattern matches is the longest prefix of characters in that class |
| Calendar.ParseDate | clipack/clipack/classes.py:113 | whatever `strptime('%d-%m-%Y')` returns is a real date (month 1..12, day within the month, year 1..9999) |
| Calendar.ParseFormatRoundTrip | clipack/clipack/classes.py:113 | a date written zero-padded as `%d-%m-%Y` parses back to the same date |
| Calendar.Ordinal | clipack/clipack/classes.py:166 | the model of `date.toordinal`, 1 January of year 1 being day 1; the lemmas below state its properties |
| Calendar.ReplaceYear | clipack/clipack/classes.py:165 | `replace(year=y)` succeeds exactly when the same month and day form a real date in year `y`, and then yields that date; otherwise `ValueError` |
| Calendar.DaysBeforeYearStep | clipack/clipack/classes.py:166 | the ordinal's closed formula puts consecutive years exactly a Gregorian year length apart |
| Calendar.SameYearOrder | clipack/clipack/classes.py:166 | within a year, ordinal order is month-then-day order, and equal ordinals mean the same month and day |
| Calendar.EarlierYear | clipack/clipack/classes.py:166 | a date of an earlier year has a smaller ordinal |
| Calendar.NextYearOrdinal | clipack/clipack/classes.py:172-173 | the ordinals of two dates one year apart differ by the first year's length plus the difference of their days of the year |
| Contact.DaysUntil | clipack/clipack/classes.py:161-174 | the model of `days_to_birthday` on a birthday and the current date; the lemmas below state its properties |
| Contact.DaysUntilNone | clipack/clipack/classes.py:161-162 | without a birthday the count is absent |
| Contact.DaysUntilErrIff | clipack/clipack/classes.py:165-172 | the count raises `ValueError` exactly for a 29 February birthday when this year is not leap or that day has passed, or when the birthday has passed in year 9999 |
| Contact.DaysUntilReachesNext | clipack/clipack/classes.py:161-174 | a successful count is the number of days from today to the next date, on or after today, with the birthday's month and day |
| Contact.DaysUntilEarliest | clipack/clipack/classes.py:161-174 | no date with the birthday's month and day, on or after today, is closer than the count |
| Contact.DaysUntilZeroIff | clipack/clipack/classes.py:166-168 | the count is 0 exactly on the birthday's month and day |
| Contact.DaysUntilRange | clipack/clipack/classes.py:161-174 | a successful count lies in 0..365 |
| Contact.RemoveScan | clipack/clipack/classes.py:192-195 | the model of the remove-while-iterating loop; the result is never longer than the list, and `RemoveScanKeepsOthers`, `RemoveScanLeavesCopyIff`, `RemoveScanNoAdjacent` and `RemoveScanAbsent` state what it removes |
| Contact.RemoveScanKeepsOthers | clipack/clipack/classes.py:192-195 | removal keeps every other number, in order |
| Contact.RemoveScanLeavesCopyIff | clipack/clipack/classes.py:192-195 | a copy of the removed number survives exactly when two copies stood next to each other |
| Contact.RemoveScanNoAdjacent | clipack/clipack/classes.py:192-195 | without adjacent copies, removal deletes every copy and nothing else |
| Contact.RemoveScanAbsent | clipack/clipack/classes.py:192-195 | removing a number not on the list changes nothing |
| Contact.DistinctNoAdjacent | clipack/clipack/classes.py:184-195 | on a list without repeated numbers, as `add_phone` keeps it, no two copies are adjacent |
| Contact.Record.constructor | clipack/clipack/classes.py:151-158 | a record built from accepted values holds them, with no phones, and satisfies the field invariant |
| Contact.Record.Create | clipack/clipack/classes.py:151-158 | `Record(...)` succeeds exactly when the name, birthday, e-mail and second name are all accepted; it then holds the parsed values and no phones, and raises `ValueError` otherwise |
| Contact.Record.DaysToBirthday | clipack/clipack/classes.py:160-174 | the record's count is `DaysUntil` of its birthday and the given date |
| Contact.Record.AddBirthday | clipack/clipack/classes.py:176-180 | succeeds exactly when no birthday is set and the new one is accepted; then stores the parsed date, else `ValueError` with nothing changed |
| Contact.Record.AddPhone | clipack/clipack/classes.py:184-190 | appends the number exactly when it is not on the list and is valid; otherwise `ValueError` with nothing changed; a list without repeats stays without repeats |
| Contact.Record.RemovePhone | clipack/clipack/classes.py:192-195 | the new list is what the source's remove-while-iterating loop leaves, and the field invariant holds |
| Contact.Record.EditPhone | clipack/clipack/classes.py:197-204 | succeeds exactly when the old number is on the list and the new one is valid; then only the first copy of the old number is replaced; else `ValueError` with nothing changed |
| Contact.Record.FindPhone | clipack/clipack/classes.py:206-210 | finds a position exactly when the number is on the list, and the position is that of its first copy |
| Contact.Record.AddEmail | clipack/clipack/classes.py:212-214 | stores the address exactly when it is accepted; otherwise `ValueError` with the old address kept |
| Contact.Record.EditEmail | clipack/clipack/classes.py:216-219 | replaces the address exactly when the given current one is the stored one and the new one is accepted; otherwise `ValueError` with nothing changed |
| Contact.Record.RemoveEmail | clipack/clipack/classes.py:221-223 | the address becomes absent |
| Contact.Record.SetAddress | clipack/clipack/classes.py:230-236 | the postal address becomes the given value, unvalidated |
| Contact.Record.RemoveAddress | clipack/clipack/classes.py:238-240 | the postal address becomes absent |
| Contact.Record.AddSecondName | clipack/clipack/classes.py:247-251 | succeeds exactly when no second name is set and the new one is accepted; otherwise `ValueError` with nothing changed |
| Contact.Record.EditSecondName | clipack/clipack/classes.py:253-257 | succeeds exactly when the new value differs from the stored one and is accepted; otherwise `ValueError` with nothing changed |
| Book.AddressBook.constructor | clipack/clipack/classes.py:265 | a new book is empty and satisfies its invariant |
| Book.AddressBook.AddContact | clipack/clipack/classes.py:267-271 | adds the record under its name, at the end of the order, exactly when the name is not yet present; otherwise `ValueError` with nothing changed |
| Book.AddressBook.Find | clipack/clipack/classes.py:298-302 | finds a record exactly when the name is a key, and the record found carries that name |
| Book.AddressBook.Delete | clipack/clipack/classes.py:304-306 | the name leaves the map and the order, the other records keep their order, and an absent name changes nothing |
| Book.CutIsFilter | clipack/clipack/classes.py:304-306 | cutting the one position of a name out of a list without repeats is the same as filtering that name out |
| Book.AddressBook.BirthdayIn | clipack/clipack/classes.py:273-278 | the loop over the records in book order computes the birthday query |
| Book.BirthdaysIn | clipack/clipack/classes.py:273-278 | the model of the birthday query over the records in book order; `BirthdaysInOkIff` and `BirthdaysInNames` state its result |
| Book.BirthdaysInOkIff | clipack/clipack/classes.py:273-278 | the query raises, with `ValueError`, exactly when some record's count raises |
| Book.BirthdaysInNames | clipack/clipack/classes.py:273-278 | a successful query yields, in book order, the names of exactly the records whose count equals the given number |
| Book.AddressBook.FindInfo | clipack/clipack/classes.py:281-296 | the result is the name search for letters, the phone search for digits, and empty otherwise |
| Book.FindInfoSpec | clipack/clipack/classes.py:281-296 | the model of `find_info` over the records in book order; `FindInfoMember` states its contents |
| Book.AddressBook.FindByName | clipack/clipack/classes.py:284-288 | the lines of the records whose name contains the query, in book order |
| Book.AddressBook.FindByPhone | clipack/clipack/classes.py:289-295 | the nested loop yields one line per record and matching phone, in book order |
| Book.PhoneLines | clipack/clipack/classes.py:291-295 | the inner loop yields the record's line once per phone number containing the query |
| Book.FindInfoMember | clipack/clipack/classes.py:281-296 | a line is in the result iff its record's name contains a letters query, or iff some phone contains a digits query; for a digits query each record's line appears once per matching phone of that record, and the total is the number of (record, matching phone) pairs; any other query gives nothing |
| Book.PhoneHits | clipack/clipack/classes.py:289-295 | the model of the digit branch's nested loop; `PhoneHitsMember`, `PhoneHitsCount` and `CopiesNonEmpty` state its contents |
| Book.PhoneHitsMember | clipack/clipack/classes.py:289-295 | a line is in the phone search's result iff its record is in the book and has a phone number containing the query |
| Book.PhoneHitsCounts | clipack/clipack/classes.py:289-295 | each record's line appears in the phone search as many times as the record has phone numbers containing the query (times the record's copies in the list) |
| Book.PhoneHitsCount | clipack/clipack/classes.py:289-295 | the phone search yields exactly as many lines as there are (record, matching phone) pairs |
| Book.CopiesNonEmpty | clipack/clipack/classes.py:291-295 | a record contributes to the phone search iff some phone number contains the query |
| Book.AddressBook.Iterator | clipack/clipack/classes.py:308-316 | the pages are the record summaries in book order, cut into full pages of `n` and a last page holding the rest (possibly empty) |
| Book.PagingStep | clipack/clipack/classes.py:311-315 | one more summary joins the page in hand, which is yielded and restarted once it holds `n` |
| Book.PagingDone | clipack/clipack/classes.py:316 | yielding the page in hand after the last record completes the paging |
| Book.PagedUnique | clipack/clipack/classes.py:308-316 | the paging of a sequence is unique |
| Notes.MakeNote | clipack/clipack/notebook.py:6-9 | a note keeps its title and text; its tags are empty exactly when none or empty tags were given, and are the given tags otherwise |
| Notes.NoteBook.constructor | clipack/clipack/notebook.py:18-23 | a new notebook holds no notes |
| Notes.NoteBook.AddNote | clipack/clipack/notebook.py:36-37 | the new note is appended |
| Notes.NoteBook.AddNoteTags | clipack/clipack/notebook.py:39-43 | for an index in range the note's tags get the new tags appended and nothing else changes; otherwise `IndexError` with nothing changed |
| Notes.NoteBook.EditNote | clipack/clipack/notebook.py:45-49 | for an index in range that note is replaced by a new one; otherwise `IndexError` with nothing changed |
| Notes.NoteBook.DeleteNoteByIndex | clipack/clipack/notebook.py:51-55 | for an index in range that note is removed and the others keep their order; otherwise `IndexError` with nothing changed |
| Notes.NoteBook.DeleteNoteByTitle | clipack/clipack/notebook.py:57-60 | the notes and outcome are those of deleting the precomputed matching indices one after another |
| Notes.MatchesFrom | clipack/clipack/notebook.py:58 | the index list holds exactly the positions whose title contains the text, in increasing order |
| Notes.DeleteNoMatch | clipack/clipack/notebook.py:57-60 | when no title matches, nothing changes |
| Notes.DeleteOneMatch | clipack/clipack/notebook.py:57-60 | when one title matches, exactly that note is removed |
| Notes.DeleteTwoMatchesShifted | clipack/clipack/notebook.py:57-60 | deleting positions `i < j` removes the note at `i` and then the note that stood at `j + 1`; when `j` was the last position the second deletion raises `IndexError` |
| Notes.DeleteAllPassIff | clipack/clipack/notebook.py:59-60 | the deletions complete without `IndexError` exactly when the k-th index is below the length minus k |
| Notes.NoteBook.SearchFull | clipack/clipack/notebook.py:62-64 | the result is the notes whose joined title, tags and text contain the query, in notebook order: every note returned matches, every matching note is returned, and each as many times as the notebook holds it |
| Notes.NoteBook.SearchByTag | clipack/clipack/notebook.py:66-67 | the same for the notes whose tags contain the query |
| Notes.FullText | clipack/clipack/notebook.py:63-64 | the model of the string `search_full` searches: title, tags and text joined by single spaces |
| Notes.TitleMatches | clipack/clipack/notebook.py:58 | the model of the index list `delete_note_by_title` computes; `MatchesFrom` states its contents |
| Notes.DeleteAll | clipack/clipack/notebook.py:59-60 | the model of the deletion loop, each deletion on the list the earlier ones left; `DeleteNoMatch`, `DeleteOneMatch`, `DeleteTwoMatchesShifted` and `DeleteAllPassIff` state its behaviour |
| Notes.SortByTags | clipack/clipack/notebook.py:70 | the model of `sorted` by tags, as an insertion sort; `SortSorted`, `SortPermutation` and `SortStable` state its properties |
| Notes.NoteBook.SortNotesByTag | clipack/clipack/notebook.py:69-70 | the result is ordered by tags, is a permutation of the notes, and keeps notes with equal tags in their original order |
| Notes.SortSorted | clipack/clipack/notebook.py:69-70 | the insertion sort's result is ordered by tags |
| Notes.SortPermutation | clipack/clipack/notebook.py:69-70 | the insertion sort's result is a permutation of its input |
| Notes.SortStable | clipack/clipack/notebook.py:69-70 | for each tag value, the notes carrying it appear in their original order |
| Notes.SortProperties | clipack/clipack/notebook.py:69-70 | ordered, a permutation and stable, for every tag value |
| Text.StrLeTotal | clipack/clipack/notebook.py:70 | any two tag strings are comparable |
| Text.StrLeTransitive | clipack/clipack/notebook.py:70 | the string order is transitive |
| Text.StrLeAntisymmetric | clipack/clipack/notebook.py:70 | strings ordered both ways are equal |
| Text.ContainsIff | clipack/clipack/notebook.py:67 | `q in s` holds iff `q` occurs in `s` at some position |
| Text.AlphaNotDigits | clipack/clipack/classes.py:284-289 | no query is both letters and digits, so `find_info`'s branches exclude each other |
| Text.UpperCharCases | clipack/clipack/file_sorter.py:75 | a character changes under upper-casing exactly when it is a lower-case letter, an ASCII one moves down by 32, and no upper-cased character is lower-case |
| Text.UpperIdempotent | clipack/clipack/file_sorter.py:75 | upper-casing twice is upper-casing once |
| Text.UpperFixedIff | clipack/clipack/file_sorter.py:75 | a string is its own upper-case exactly when it holds no lower-case letter |
| Text.Upper | clipack/clipack/file_sorter.py:75 | the model of `str.upper`, character by character; its properties are stated by `UpperCharCases`, `UpperIdempotent` and `UpperFixedIff` |
| Text.Contains | clipack/clipack/notebook.py:67 | the model of `in` on strings; `ContainsIff` states what it means |
| Text.StrLe | clipack/clipack/notebook.py:70 | the model of Python's string order, the sort key's comparison; `StrLeTotal`, `StrLeTransitive` and `StrLeAntisymmetric` make it a total order |
| Text.IsAlpha | clipack/clipack/classes.py:284 | the model of `str.isalpha`: non-empty, every character a letter; `AlphaNotDigits` separates it from `IsDigits` |
| Text.IsDigits | clipack/clipack/classes.py:289 | the model of `str.isdigit`: non-empty, every character a digit |
| FileSort.TranslitOk | clipack/clipack/file_sorter.py:22-43 | every key of the table is a Cyrillic letter mapped to at most three ASCII letters, to nothing exactly for the hard and soft signs |
| FileSort.TranslitEntry | clipack/clipack/file_sorter.py:22-43 | each entry of the table has that form |
| FileSort.ExtensionsUpper | clipack/clipack/file_sorter.py:14-21 | every listed extension has at least two characters, all upper-case ASCII letters or digits, and starts with a letter |
| FileSort.CategoriesDisjoint | clipack/clipack/file_sorter.py:14-21 | no extension is listed under two categories |
| FileSort.LastDot | clipack/clipack/file_sorter.py:71 | the position found holds the last '.' of the name, or there is none |
| FileSort.Suffix | clipack/clipack/file_sorter.py:71 | a suffix is empty, or a '.' followed by at least one character and no other '.' |
| FileSort.Stem | clipack/clipack/file_sorter.py:110 | the model of `PurePath.stem`: the name before its suffix; `StemSuffixSplit`, `SplitOfJoin` and `NoDotAllStem` state its properties |
| FileSort.StemSuffixSplit | clipack/clipack/file_sorter.py:110 | stem and suffix together are the name, and a name with a suffix has a non-empty stem |
| FileSort.SplitOfJoin | clipack/clipack/file_sorter.py:110 | a dot-free stem joined with a suffix splits back into the two |
| FileSort.NoDotAllStem | clipack/clipack/file_sorter.py:110 | a name without a '.' is all stem |
| FileSort.CharImage | clipack/clipack/file_sorter.py:115-122 | the model of what one character of the stem contributes; `CharImageShape` states it |
| FileSort.CharImageShape | clipack/clipack/file_sorter.py:115-122 | ASCII letters and digits and '_' are kept, any other character in the table becomes its entry, the hard and soft signs vanish, any other character becomes '_', and every image is at most three ASCII letters, digits or '_' |
| FileSort.NormStem | clipack/clipack/file_sorter.py:112-122 | the model of the loop over the stem's characters; `NormStemConcat`, `NormStemChars` and `NormStemFixed` state its properties |
| FileSort.NormStemConcat | clipack/clipack/file_sorter.py:112-122 | the character loop distributes over concatenation |
| FileSort.NormStemChars | clipack/clipack/file_sorter.py:112-122 | the normalised stem holds only ASCII letters, digits and '_' |
| FileSort.NormStemFixed | clipack/clipack/file_sorter.py:117-120 | a stem already made of those characters is unchanged |
| FileSort.NormalizeName | clipack/clipack/file_sorter.py:91-124 | the model of `normalize`; `NormalizeNameShape` and `NormalizeIdempotent` state its properties |
| FileSort.NormalizeNameShape | clipack/clipack/file_sorter.py:91-124 | a hidden name is returned unchanged; otherwise the result is the normalised stem, followed by the suffix when asked for |
| FileSort.NormalizeIdempotent | clipack/clipack/file_sorter.py:91-124 | normalising a normalised name changes nothing |
| FileSort.FileSorter.constructor | clipack/clipack/file_sorter.py:8-43 | a new sorter uses the transliteration table and has empty extension sets and grouping |
| FileSort.FileSorter.Normalize | clipack/clipack/file_sorter.py:91-124 | the loop over the stem computes the normalised name |
| FileSort.LastMatch | clipack/clipack/file_sorter.py:74-77 | the scan finds no category iff no category lists the extension; otherwise it finds one that does |
| FileSort.CategoryIff | clipack/clipack/file_sorter.py:74-82 | an extension listed under a category gets that category, and `others` is chosen iff no category lists it |
| FileSort.Extension | clipack/clipack/file_sorter.py:71 | the model of the extension `find_file_type` looks up; `ExtensionOfName` states it on examples of both forms |
| FileSort.Category | clipack/clipack/file_sorter.py:74-82 | the model of the category chosen for an upper-cased extension; `CategoryIff` states it |
| FileSort.ExtensionOfName | clipack/clipack/file_sorter.py:71 | the extension of `stem.ext` is `ext`, and a hidden file's extension is its whole name |
| FileSort.CategoryExamples | clipack/clipack/file_sorter.py:14-21 | an illustration only: `MP3` is audio and `GZ` is an archive; lower-case `mp3` and the empty extension are `others` |
| FileSort.UpperExtensionExample | clipack/clipack/file_sorter.py:75 | an illustration only: `mp3` upper-cases to `MP3` |
| FileSort.FileSorter.FindFileType | clipack/clipack/file_sorter.py:63-89 | returns the category of the upper-cased extension; adds it to the known extensions when one is found, to the unknown ones when none is found and it is non-empty; adds the normalised name to that category's group; nothing else changes |

## Left out

- Files, `pickle`, the command line and `main.py`: saving and loading the
  book and the notebook, and the menus, are I/O.
- The file-system part of `FileSorter` is I/O: the directory check, the
  recursive `sort`, moving files and `execute_sort`. So are `path_to_dir`
  and `result_msg`, which only that part uses.
- The clock: `days_to_birthday` and the birthday query take the current
  date as a parameter.
- The demonstration statements at the end of `classes.py`, which build one
  record and print it.
- `find_email` and `find_address`: each compares a field object with a
  string, which never holds, so both always return `None`.
- `show_all`: it returns a copy of the list.
- `__str__` of `Record` and `Note`, and `find_info`'s line format: a line is
  modelled by the fields it shows (`Snapshot`, `InfoLine`), not as text.
- Unicode: `isalpha` is modelled as ASCII letters plus the Cyrillic letters
  of the transliteration table. `isdigit` is modelled as ASCII digits, in
  `Phone`, in `find_info` and in `normalize`. `upper` covers ASCII and those
  Cyrillic letters (`IsLowerCase`). Other scripts, other digit characters
  and special case mappings are not modelled. Two validators are affected:
  - The trailing `\b` of the e-mail pattern uses Unicode `\w`, while the
    model's `IsWordChar` knows only ASCII letters, digits, '_' and those
    Cyrillic letters. So `EmailMatches("ab@cd.efé")` holds, whereas Python
    finds no word boundary before `é` and the validator raises
    `ValueError`. The e-mail rows above are stated for that character class.
  - `strptime` reads `%d`, `%m` and `%Y` with Unicode `\d`, so a date such as
    `01-01-١٩٩٠` (Arabic-Indic digits) parses in Python. The model's
    `DayField`, `MonthField` and `YearField` accept ASCII digits only, so
    `NewBirthday` rejects it.
- Object identity: searches and the sort return notes as values, so the
  aliasing between the returned notes and the notebook's is not captured.
  `remove_phone` removes the phone object it is looking at; the model
  removes the element at that position.
- The generator's laziness: `iterator` is modelled as the full list of the
  pages it yields.
- Return values of the field mutators: `edit_phone`, `add_email`,
  `remove_email`, `add_address`, `edit_address`, `remove_address` and
  `edit_second_name` return the field object they set. `EditPhone`,
  `AddEmail` and `EditSecondName` return only the outcome, and
  `RemoveEmail`, `SetAddress` and `RemoveAddress`, which cannot fail,
  return nothing. The new state their ensures state already determines
  the returned value.
- `SetAddress`: `add_address` and `edit_address` do the same thing, so one
  method models both.
- FileSort.TranslitOk: proves that every key of the table is a Cyrillic
  letter of the right form. It does not prove the converse, that every
  Cyrillic letter is a key.
