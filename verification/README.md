# Gmail alias engine: a verified model of `Database`

The `Database` class is the engine of a chat bot that hands out Gmail
"dot-trick" aliases to named services. Gmail ignores dots in the local
part of an address. So `abc@gmail.com`, `a.bc@gmail.com`,
`ab.c@gmail.com` and `a.b.c@gmail.com` all reach the same mailbox. The
engine works on two pieces of state:

- the **pool**: the list of aliases, kept in a text file with one alias
  per line;
- the **assignment record**: a JSON document that maps each lower-cased
  service name to the aliases it was given, oldest first. Documents from
  older versions hold a bare string instead of a list.

The engine does four things. It generates the pool from one address. It
looks up a service's aliases. It finds the first pool alias that a service
(or every service) has not been given yet. And it assigns that alias when
a service asks for one. This project models those operations in Dafny and
proves what they promise.

Modules:

- `Text`: the Python string primitives the engine relies on: `str.strip`,
  `str.lower`, `str.endswith`, `split('@')[0]`, and the lines of a text
  file. `Wrappers` holds `Option` and `Result`.
- `PoolFile`: reading the pool back (`_load_gmails`: strip every line,
  drop the blank ones) and writing it (one alias per line). It proves that
  a written pool reads back unchanged.
- `Combinations`: `itertools.combinations(range(lo, hi), k)` as a
  specification function. It proves that the function yields exactly the
  increasing k-tuples, in lexicographic order, C(hi-lo, k) of them, and
  that a row of binomials sums to 2^n.
- `DotVariants`: what a dotted variant is. The local part is cut at the
  chosen boundaries, and the pieces are joined with dots. This module holds:
  - the insertion loop of `generate_domain_names`, proved against that
    definition;
  - the generated pool: its size 2^(N-1), its order, its first element,
    and its distinctness for local parts without dots.
- `ServiceStore`: the assignment record as a map, with pure specification
  functions. They cover lookup, first-unused search, assignment, migration
  and `check_and_assign_gmail`, plus lemmas about them:
  - assignment is idempotent and leaves other services alone;
  - assignment never puts the same alias twice into a service's list;
  - migration changes nothing a lookup can see;
  - asking twice gives the same answer.
- `Database`: the class itself. `gmails` and `services` are fields. The
  pool file and the JSON document are ghost fields (`poolFile`,
  `document`), and every write to a file is an assignment to its field.
  Each method is proved against the `ServiceStore` and `DotVariants`
  functions. That includes when the document is written: migration writes
  only if it converted an entry, and assignment writes only on a real
  append.

Edge cases of the code that the model keeps:

- When the local part already holds a dot, the code yields repeats. For
  `a.b@gmail.com`, a dot after `a` and a dot before `b` both give
  `a..b@gmail.com` (`DotVariants.DottedLocalPartRepeats`). Distinctness is
  proved for local parts without a dot (`DotVariants.PoolDistinct`).
- The code checks only `endswith('@gmail.com')`, and takes everything
  before the *first* `@` as the local part. So `@gmail.com` is accepted and
  yields a pool of one.
- When nothing is left for a service, `check_and_assign_gmail` returns the
  string `Нет доступных почт` (`ServiceStore.NoneLeft`) in place of an
  alias. As in Python, an empty alias counts as no alias at both tests in
  that method.

## Model

| member | source | states |
|---|---|---|
| `Text.StripSlice` | database.py:20 | `line.strip()` is a slice of the line with only white space cut before and after it; with `Strip`'s own contract (no white space left at either end) this determines the result |
| `Text.StripTrimmed` | database.py:20 | a line with no white space at its ends is left unchanged by `strip` |
| `Text.StripIdempotent` | database.py:20 | stripping twice is stripping once |
| `Text.StripKeepsOut` | database.py:20 | `strip` only removes characters, so a character absent from a line is absent from its stripped form |
| `Text.Lower` | database.py:77 | `lower()` keeps the length, leaves no capital, and leaves a string without capitals unchanged |
| `Text.LowerIdempotent` | database.py:134-135 | lower-casing an already lower-cased service name changes nothing |
| `Text.BeforeFirst` | database.py:163 | `split('@')[0]` is the longest prefix without `@`, and is followed by `@` when shorter than the input |
| `Text.Lines` | database.py:19-20 | the lines of a file contain no newline and, joined by newlines, give back the file |
| `PoolFile.StrippedLines` | database.py:20 | one entry per line, in order, each the stripped line with nothing left to strip |
| `PoolFile.DropEmptySpec` | database.py:20 | the `if line.strip()` filter keeps exactly the non-empty stripped lines |
| `PoolFile.KeepNonBlankClean` | database.py:20 | each loaded alias is a non-empty, stripped form of some line and, for newline-free lines, has no newline |
| `PoolFile.LoadGmails` | database.py:16-23 | every alias `_load_gmails` returns is non-empty, has no white space at its ends and no newline; a one-line file yields its stripped line, or nothing when that is blank |
| `PoolFile.LoadGmailsLine` | database.py:19-20 | the file is read line by line in order: the first line contributes its stripped form unless blank, then the remaining lines follow |
| `PoolFile.KeepNonBlankCons` | database.py:20 | the filter keeps or drops the first line on its own, then filters the others |
| `PoolFile.PoolTextSnoc` | database.py:188-190 | writing one more alias appends its line, `alias + "\n"`, to the text written so far |
| `PoolFile.LinesOfPoolText` | database.py:188-190 | the lines of the written pool file are the aliases followed by one empty line |
| `PoolFile.PoolRoundTrip` | database.py:188-193 | for aliases that are non-empty, single-line and stripped, loading the written file gives back the pool held in memory |
| `PoolFile.ReloadStable` | database.py:16-23 | whatever was loaded once survives a rewrite of the file and a reload unchanged |
| `Combinations.CombinationIndex` | database.py:174 | a combination is a strictly increasing tuple drawn from the range |
| `Combinations.CombosSound` | database.py:174 | every tuple `combinations(range(lo, hi), k)` yields is a strictly increasing k-tuple from the range |
| `Combinations.CombosComplete` | database.py:174 | every strictly increasing k-tuple from the range is yielded |
| `Combinations.CombosExactly` | database.py:174 | a tuple is yielded exactly when it is a strictly increasing k-tuple drawn from the range |
| `Combinations.CombosSorted` | database.py:174 | the tuples come out in strictly increasing lexicographic order |
| `Combinations.CombosCount` | database.py:174 | `combinations(range(lo, hi), k)` yields C(hi-lo, k) tuples |
| `Combinations.BinomRowSum` | database.py:172-174 | C(n,0) + ... + C(n,n) = 2^n |
| `DotVariants.LocalPart` | database.py:163 | the local part holds no `@` |
| `DotVariants.Segments` | database.py:178-181 | a placement of dots cuts the local part into one more piece than it has dots; the pieces spell the local part again and none is empty unless the local part is |
| `DotVariants.DottedShape` | database.py:178-181 | a variant is the local part cut into non-empty pieces that spell it again, joined by one dot each, one character longer per dot |
| `DotVariants.DottedChars` | database.py:178-181 | a variant holds only the local part's characters and dots |
| `DotVariants.InsertDots` | database.py:178-181 | inserting dots from the highest position down yields exactly the local part with a dot at every chosen boundary |
| `DotVariants.InsertDotStep` | database.py:180-181 | one insertion `s[:p] + '.' + s[p:]` extends the dotted suffix by one boundary without moving the boundaries still to come |
| `DotVariants.DottedInjective` | database.py:176-181 | for a local part without dots, different placements give different dotted local parts |
| `DotVariants.CombosValidCuts` | database.py:174 | every tuple of `combinations(range(1, N), i)` is a placement of i dots strictly inside the local part |
| `DotVariants.PlacementsValid` | database.py:172-174 | the placements enumerated for 1 to k dots each have between 1 and k dots, all at inner boundaries |
| `DotVariants.GeneratedPool` | database.py:166-169 | the generated pool starts with the input address itself |
| `DotVariants.PoolCount` | database.py:172-185 | a local part of length N >= 1 yields 2^(N-1) addresses, an empty one just the input |
| `DotVariants.PlacementsOrdered` | database.py:172-176 | placements are enumerated by increasing number of dots, and within one number in lexicographic order |
| `DotVariants.PlacementsComplete` | database.py:172-174 | every non-empty placement of dots at inner boundaries is enumerated |
| `DotVariants.AllPlacementsDistinct` | database.py:172-174 | no placement is enumerated twice |
| `DotVariants.LocalPartOfVariant` | database.py:184 | the local part of a variant is the dotted local part |
| `DotVariants.InputIsNoVariant` | database.py:169-185 | no variant equals the input address |
| `DotVariants.VariantsDiffer` | database.py:176-185 | for a local part without dots, different placements give different addresses |
| `DotVariants.PoolDistinct` | database.py:166-185 | for a local part without dots, the generated pool holds no address twice |
| `DotVariants.DottedLocalPartRepeats` | database.py:172-185 | a three-character local part with a dot in the middle, such as `a.b`, yields the same address at entries 1 and 2 |
| `DotVariants.PoolOfThreeCharacters` | database.py:166-185 | the pool for `xyz@gmail.com` is `xyz`, `x.yz`, `xy.z`, `x.y.z` at `@gmail.com`, in that order |
| `DotVariants.VariantStorable` | database.py:184-190 | a variant of a non-empty, stripped, single-line address is itself non-empty, stripped and single-line |
| `DotVariants.GeneratedPoolRoundTrip` | database.py:188-193 | for such an address, the written pool file loads back as exactly the generated pool |
| `ServiceStore.ServiceListCaseInsensitive` | database.py:94-102 | looking a service up under its lower-cased name finds the same aliases and the same latest alias |
| `ServiceStore.UsedAmongAdd` | database.py:56-61 | collecting one more service adds exactly its aliases, a bare string as one alias |
| `ServiceStore.FirstOutsideAt` | database.py:67-70 | the position found is the first whose alias is not excluded: all before it are excluded |
| `ServiceStore.FirstOutsideAtUnique` | database.py:67-70 | that position is the only one with this description |
| `ServiceStore.FirstOutside` | database.py:64-70 | no alias is found exactly when every pool alias is excluded; an alias found is in the pool and not excluded |
| `ServiceStore.UnusedAnywhereIsUnusedFor` | database.py:64-92 | an alias no service uses is also unused for any given service, and the per-service search finds one no later |
| `ServiceStore.Assigned` | database.py:111-125 | the service's entry becomes a list, other services keep their entries, the service name is lower-cased |
| `ServiceStore.AssignedList` | database.py:111-125 | afterwards the service's list is the old one, with `g` appended if it was absent; `g` is then its latest alias |
| `ServiceStore.AssignedKnown` | database.py:122-124 | assigning an alias the service already holds changes no lookup |
| `ServiceStore.AssignedOthers` | database.py:111-125 | services with another lower-cased name keep their aliases |
| `ServiceStore.AssignedIdempotent` | database.py:122-125 | assigning the same alias twice is assigning it once |
| `ServiceStore.AssignedUsed` | database.py:111-125 | afterwards the aliases in use are those before plus `g` |
| `ServiceStore.AssignedWellFormed` | database.py:122-124 | assignment never puts the same alias twice into a service's list |
| `ServiceStore.Migrated` | database.py:36-46 | migration keeps every service and leaves no bare-string entry |
| `ServiceStore.MigratedUnchanged` | database.py:36-46 | migration changes the record exactly when it holds a bare-string entry |
| `ServiceStore.MigratedSame` | database.py:39-43 | migration changes no service's aliases and no alias in use, and keeps lists free of repeats |
| `ServiceStore.MigratedIdempotent` | database.py:36-46 | migrating twice is migrating once |
| `ServiceStore.CheckAndAssign` | database.py:127-145 | an existing non-empty latest alias is returned with no change; otherwise the first pool alias the service lacks is assigned and returned as its new latest; otherwise the record stays as it was and the answer is the sentinel |
| `ServiceStore.CheckAndAssignSettles` | database.py:127-145 | asking again returns the same alias, now as an existing binding, and changes nothing; an exhausted pool stays exhausted |
| `ServiceStore.CheckAndAssignWellFormed` | database.py:127-145 | a request keeps lists free of repeats and leaves other services as they were |
| `Database.Database.constructor` | database.py:10-14 | the pool is the loaded file or empty; the record is the loaded document (or empty), migrated, and written back only if migration converted something |
| `Database.Database.Save` | database.py:48-51 | the document now holds the record, and nothing else changes |
| `Database.Database.MigrateIfNeeded` | database.py:36-46 | the record becomes its migrated form; the document is written only if an entry was converted |
| `Database.Database.GetAllUsedGmails` | database.py:53-62 | the loop over the services collects exactly the aliases in use |
| `Database.Database.FirstNotIn` | database.py:67-70 | the loop over the pool returns the first alias not excluded, or nothing |
| `Database.Database.GetUnusedGmail` | database.py:64-70 | the first pool alias no service uses; nothing exactly when every pool alias is in use |
| `Database.Database.GetUnusedGmailForService` | database.py:72-92 | the first pool alias the (lower-cased) service has not been given, a bare-string entry counting as one alias |
| `Database.Database.ServiceGmails` | database.py:94-102 | an unknown service has no aliases, a bare string is a list of one, a list is returned as stored |
| `Database.Database.LatestServiceGmail` | database.py:104-109 | nothing exactly when the service has no aliases, else the last one |
| `Database.Database.AssignGmailToService` | database.py:111-125 | the record becomes `Assigned(old, name, g)`; the document is written only if `g` was appended |
| `Database.Database.CheckAndAssignGmail` | database.py:127-145 | answer and new record are those of `CheckAndAssign`; the document is written exactly when the record changed; the pool is untouched |
| `Database.Database.GenerateDomainNames` | database.py:147-199 | a non-Gmail address is refused with nothing changed; otherwise the pool becomes the generated pool of 2^(N-1) addresses and is written to the pool file, which reloads as the same pool for a stripped single-line address; the record is emptied and written |
| `Database.Database.DottedAddresses` | database.py:166-185 | the nested loops build exactly the generated pool |
| `Database.Database.VariantsOf` | database.py:174-185 | the loop over the combinations for i dots builds one address per combination, in order |
| `Database.Database.PoolFileText` | database.py:188-190 | the loop writing the pool file writes every alias followed by a newline |

## Left out

- Reading and writing files are not performed. The pool file's text and the
  JSON document's content are ghost fields, and the constructor takes them
  as parameters. Either is `None` when the file is missing, or when the
  document cannot be parsed (the Python returns an empty pool or an empty
  record then). Other I/O errors, which the Python lets propagate, are not
  modelled.
- Console messages (`print`) on a missing or unparsable file are not
  modelled.
- JSON values other than a string or a list of strings in the record are not
  modelled. The code treats them inconsistently from one operation to the
  next.
- `get_service_gmails` returns the stored list object itself, so a caller
  that mutates it mutates the record. The model returns a value, so this
  aliasing is not captured.
- Dictionary order is not modelled: the record is a map. No operation's
  result depends on that order. Migration converts every entry, and the used
  set is a set.
- `Text.Lower`: does not model Python's full Unicode `str.lower`. Only ASCII
  capitals and the basic Cyrillic capitals (U+0400 to U+042F) are mapped.
- `Text.Lines`: does not model universal-newline translation. Lines are split
  at `'\n'` only. A `"\r\n"` ending is removed by `strip` anyway, but a lone
  `'\r'` does not split a line here.
- `DotVariants.PoolDistinct`: requires a local part without a dot. This is
  weaker than "2^(N-1) distinct aliases", because the code repeats aliases
  otherwise (`DotVariants.DottedLocalPartRepeats`).
- `PoolFile.PoolRoundTrip`: holds only for aliases that are non-empty,
  single-line and stripped. Others do not survive the file in the code
  either.
- The chat front end (`bot.py`) and the file names (`config.py`) are not
  part of this model.
