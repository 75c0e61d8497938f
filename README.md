# Revisioned document store

This is a Dafny model of the storage engine of a small document store.
The store keeps every saved revision of a named text document. Each
revision is written twice, both times under the same Unix second:

- once in the directory `DataDir/<name>`;
- once in `HashDir/<hash name>`. The hash name is the SHA-256 digest of
  the document name, written in unpadded base64url.

Each revision is a file named by its second in decimal. Reading a key
works in three steps:

1. Walk its directory.
2. Parse every file name as an int64 and sort the times newest first.
3. Load the file of either a requested second or the newest one.

The model has six modules:

- `Wrappers`: `Option` and `Result`.
- `Decimal`: file names. fmt's `%v` on an int64 is `FormatInt`, and
  `strconv.ParseInt(s, 10, 64)` is `ParseInt`. It proves the round trip
  and the leading-zero aliasing that `ParseInt` allows.
- `Base64Url`: the hash name. It covers `base64.RawURLEncoding` as
  section 5 of RFC 4648 defines it, without padding. SHA-256 is a
  parameter `sha`. The module proves the 43-character length, the
  alphabet and the decode round trip.
- `TimeSlices`: the `TimeSlice` class.
  - `Append` writes into its backing array and reallocates a larger one
    when it is full.
  - `Len`, `Less` and `Swap` are modelled over that array.
  - `Less` is `time.Time.After` on times made by `time.Unix(u, 0)`. Such a
    time stores `u + 62135596800` as a wrapping int64. So a second above
    9223371974719179007 wraps, and it orders as older than every ordinary
    second.
  - `sort.Sort` is an in-place insertion sort driven by `Less` and
    `Swap`. It is proved to leave the slice newest first in that order and
    to be a permutation of its input.
- `FileSystem`: the storage area as the class `Disk`, holding a map from
  key directory to a flat list of files. It provides `MkdirAll`,
  `WriteFile` (create or truncate) and `ReadFile`. Failures of the
  operating system are passed in as fault flags.
- `Docs`: the class `Doc` and its methods (`Hash`, `Write`, `ReadTimes`,
  `ReadHashTimes`, `ReadData`, `ReadHashData`), plus the four reads
  `ReadDoc`, `ReadDocLatest`, `ReadHash` and `ReadHashLatest`. Each pair
  of reads shares its opening lines (a new `Doc`, its names, its times);
  `OpenByName` and `OpenByHash` model those. It specifies them with these value-level functions:
  - `WriteState`: the directories after a write, for every combination
    of failed calls;
  - `ParsedTimes`: the times a walk collects;
  - `Revision`: the file at one second;
  - `Newest`.
- `DocProperties`: properties that span several operations:
  - a write stores both copies;
  - a failure is not rolled back;
  - two writes in one second collapse into one;
  - the newest revision after a write is the one just written;
  - a two-write history.

  It ends with a client, `SaveThenViewLatest`, that saves a document and
  then reads it back by name and by hash.

In three places the code does not fail the way a caller might expect,
and the model follows the code:

- A read of a key that has no directory does not fail with a not-found
  error. `filepath.Walk` hands its callback a nil `FileInfo`, and the
  callback's `info.IsDir()` panics. The model returns the distinct error
  `NilInfoPanic` for this case.
- A latest read on an empty list of times does not fail with a not-found
  error either. `(*doc.Times)[0]` panics. The model makes a non-empty
  list a precondition of `ReadDocLatest` and `ReadHashLatest`.
- A write whose hash-side step fails returns that step's own error. No
  separate partial-write error exists, and the name-side copy stays
  (`HashSideFailureKeepsNameCopy`).

## Model

| member | source | states |
|---|---|---|
| Decimal.FormatNat | doc.go:112 | the name of a second is a non-empty run of decimal digits with no leading zero |
| Decimal.FormatInt | doc.go:112 | the name of a second is a minus sign exactly when the second is negative, followed by decimal digits |
| Decimal.ParseInt | doc.go:136 | a name that parses starts with a sign or a digit |
| Decimal.DigitsAreZerosThenFormat | doc.go:136 | any run of digits is some zeros followed by the canonical digits of its value |
| Decimal.ParseIntShape | doc.go:136 | a name that parses is an optional sign, then zeros, then the canonical digits of the value's magnitude; only a leading minus gives a negative value |
| Decimal.ParseIntOutOfRange | doc.go:136-141 | digits of a value above MaxInt64 are rejected, with or without '+'; after a minus sign a magnitude above 2^63 is rejected, and 2^63 itself gives MinInt64 |
| Decimal.ParseIntRejectsMalformed | doc.go:136-141 | an empty name, a lone sign and a name with a non-digit after its first character are rejected, so the walk skips them |
| Decimal.DigitsValueOfFormat | doc.go:112 | the digits written for n read back as n |
| Decimal.ParseFormat | doc.go:136-142 | every Unix second written as a file name by Write parses back to that same second |
| Decimal.FormatInjective | doc.go:112 | two seconds get the same file name if and only if they are equal, so revisions at different seconds never overwrite each other |
| Decimal.LeadingZerosAlias | doc.go:136 | ParseInt also accepts names Write never produces: "007" parses as 7, whose own name is "7" |
| Base64Url.EncodeSextet | doc.go:198 | every six-bit value maps to a character of the URL-safe alphabet |
| Base64Url.DecodeEncodeSextet | doc.go:198 | the alphabet mapping is invertible |
| Base64Url.Encode | doc.go:198 | unpadded base64url of n bytes has (4n+2)/3 characters, all URL-safe |
| Base64Url.GroupArithmetic | doc.go:198 | the four sextets of a three-byte group carry back exactly those three bytes |
| Base64Url.DecodeGroup | doc.go:198 | decoding a leading four-character group gives its three bytes, then decodes the rest |
| Base64Url.DecodeEncode | doc.go:198 | the encoding loses nothing: decoding the text gives back the bytes |
| Base64Url.EncodeInjective | doc.go:198 | different digests never share an encoded name |
| Base64Url.HashName | doc.go:196-200 | a hash name is 43 URL-safe characters and depends only on the document name |
| Base64Url.HashNameDecodes | doc.go:196-200 | the hash name determines the SHA-256 digest it was made from |
| TimeSlices.After | timeslice.go:16-18 | for seconds up to 9223371974719179007, After is "strictly later"; a second beyond that wraps in time.Unix and every ordinary second is After it |
| TimeSlices.InternalSecInjective | timeslice.go:18 | distinct Unix seconds stay distinct instants after the wrapping conversion of time.Unix |
| TimeSlices.Swapped | timeslice.go:20-21 | exchanging i and j puts each element at the other's place and leaves the rest unchanged |
| TimeSlices.SwappedPermutes | timeslice.go:20-21 | a swap is a permutation of the times |
| TimeSlices.SwappedTwice | timeslice.go:20-21 | a swap is its own inverse |
| TimeSlices.NewestFirstIffAdjacent | timeslice.go:16-18 | newest-first order holds exactly when no time is After its predecessor |
| TimeSlices.FirstIsLatest | doc.go:257 | the first element of a newest-first slice is in its times and no time is After it |
| TimeSlices.TimeSlice.constructor | doc.go:130 | new(TimeSlice) is empty |
| TimeSlices.TimeSlice.Append | timeslice.go:8-11 | the slice's contents become the old contents followed by t; a full backing array is replaced by a fresh one |
| TimeSlices.TimeSlice.Len | timeslice.go:13-14 | Len is the number of times in the slice |
| TimeSlices.TimeSlice.Less | timeslice.go:16-18 | Less(i, j) holds exactly when the time at i is After the time at j, with time.Unix's wrap |
| TimeSlices.TimeSlice.Swap | timeslice.go:20-21 | the contents become the swapped old contents, the same multiset of times |
| TimeSlices.TimeSlice.Sort | doc.go:149 | sort.Sort leaves the slice newest first by After and a permutation of what it held |
| TimeSlices.TimeSlice.Insert | doc.go:149 | one insertion pass extends the newest-first prefix by one element and keeps the same times |
| TimeSlices.LessIsStrict | timeslice.go:16-18 | Less is irreflexive, asymmetric and transitive, and two positions are unordered both ways exactly when they hold the same time, as sort.Sort requires |
| FileSystem.Lookup | doc.go:63-66 | a found content belongs to a file of that name; no content means no file of that name |
| FileSystem.Put | doc.go:47-51 | after a create-or-truncate write the file holds the new content; every other file is unchanged; the directory grows only when the name is new |
| FileSystem.PutKeepsNamesUnique | doc.go:48 | writing a file never makes a directory hold two files of one name |
| FileSystem.PutTwice | doc.go:48 | a second write of the same file replaces the first entirely (O_TRUNC) |
| FileSystem.EnsureDir | doc.go:109 | MkdirAll makes the key directory exist and leaves every existing directory's files unchanged |
| FileSystem.Disk.constructor | doc.go:109 | the storage area starts with no directories |
| FileSystem.Disk.MkdirAll | doc.go:109-111 | on success the key directory exists with its files kept; on failure the error is returned and nothing changes |
| FileSystem.Disk.WriteFile | doc.go:47-57 | fails with NotExist without a directory and with an I/O error on a fault, changing nothing; otherwise exactly that file is stored |
| FileSystem.Disk.ReadFile | doc.go:63-102 | the content returned is that of a file of that name; the only error is NotExist, exactly when there is no such directory or file |
| Docs.ParsedTimesAppend | doc.go:132-145 | the times of a concatenated listing are the times of each part, in order |
| Docs.TimesListed | doc.go:132-145 | a time is listed if and only if some file of the directory has a name that parses to it |
| Docs.FileOfListedTime | doc.go:132-145 | every listed time comes from a file of the directory whose name parses to it |
| Docs.ListedTimeOfFile | doc.go:132-145 | every file whose name parses contributes its time to the listing |
| Docs.ParsedTimesCons | doc.go:132-145 | a file in front of a listing contributes its time first |
| Docs.TimesAfterPut | doc.go:112-113 | writing a file adds its parsed time to the listing when the name is new; overwriting keeps the times |
| Docs.RevisionIsListed | doc.go:185-186 | every readable revision's second appears in the key's times |
| Docs.Newest | doc.go:257 | the newest time is one of the times and no time is After it |
| Docs.Revision | doc.go:185-186 | a revision at t is the content of the file named by t in decimal in the key directory; there is none exactly when no such file exists |
| Docs.LookupFindsEntry | doc.go:186 | in a directory with unique names, the file found is the one ReadFile returns |
| Docs.Doc.constructor | doc.go:231 | new(Doc) has every field nil |
| Docs.Doc.Hash | doc.go:196-200 | HashName becomes the hash name of Name, and nothing else changes |
| Docs.Doc.Write | doc.go:106-125 | the error and the directories afterwards are WriteState's: the first failing call's error, with everything written before it kept |
| Docs.Doc.ReadTimes | doc.go:129-151 | Times is a fresh slice holding exactly the parsed times of DataDir/Name, newest first; a missing directory gives NilInfoPanic and an empty slice |
| Docs.Doc.ReadHashTimes | doc.go:155-180 | the same for HashDir/HashName |
| Docs.Doc.ReadData | doc.go:184-193 | Data becomes the revision of Name at Time; without one, NotExist and Data unchanged |
| Docs.Doc.ReadHashData | doc.go:204-213 | the same for HashName |
| Docs.Doc.SelectNewest | doc.go:257 | Time becomes the first of the sorted times, which is the newest parsed time of the directory |
| Docs.Doc.ReadRevision | doc.go:185-192 | the shared read of ReadData and ReadHashData: exactly the revision's content, or NotExist with Data unchanged |
| Docs.CollectTimes | doc.go:130-150 | the walk plus sort: newest first with exactly the directory's parsed times, or NilInfoPanic for a missing directory |
| Docs.GatherTimes | doc.go:132-145 | the walk appends the parsed times of the files in listing order and skips unparsable names |
| Docs.AppendParsed | doc.go:136-143 | one visit of the walk: a file name that parses appends its time; any other name leaves the slice as it was |
| Docs.FirstIsNewest | doc.go:257 | (*doc.Times)[0] after sorting is the newest of the directory's parsed times |
| Docs.OpenByName | doc.go:231-236 | a fresh Doc with Name and its hash name set, Data and Time nil, and a fresh slice of the key directory's parsed times newest first; NilInfoPanic for a missing directory |
| Docs.OpenByHash | doc.go:267-271 | a fresh Doc with only HashName set, Data and Time nil, and a fresh slice of the hash directory's parsed times newest first; NilInfoPanic for a missing directory |
| Docs.ReadDoc | doc.go:230-244 | NilInfoPanic without a directory, NotExist without a revision at t, and otherwise a fresh Doc holding Name, its hash name, a fresh slice of all times newest first, Time t and that revision's content |
| Docs.ReadDocLatest | doc.go:248-262 | as ReadDoc, at the newest listed time; NotExist when no file carries that time's own name |
| Docs.ReadHash | doc.go:266-280 | as ReadDoc but for a hash name, with Name left nil |
| Docs.ReadHashLatest | doc.go:284-298 | as ReadDocLatest but for a hash name, with Name left nil |
| DocProperties.WriteSucceedsIffNoFault | doc.go:106-125 | Write returns no error if and only if none of its four calls fails |
| DocProperties.WriteNormalForm | doc.go:106-125 | a successful write is one file store into each of the two key directories, created if missing |
| DocProperties.WriteStoresBoth | doc.go:106-125 | after a successful write both keys have the revision at now with Data; no other key and no other second changes |
| DocProperties.HashSideFailureKeepsNameCopy | doc.go:116-123 | a hash-side failure returns the error, keeps the name copy and changes nothing under the hash name (no rollback) |
| DocProperties.NameSideFailureWritesNothing | doc.go:108-115 | a name-side failure returns the error and no revision anywhere has changed |
| DocProperties.SameSecondWritesCollapse | doc.go:112-121 | two writes in the same second leave what the second write alone leaves |
| DocProperties.OverwriteBoth | doc.go:113-121 | writing the same file into the two key directories twice keeps only the second content |
| DocProperties.ListedAfterPut | doc.go:132-145 | after a write at now, now is listed, and it is added to the times only if no file for it existed |
| DocProperties.WriteListsRevision | doc.go:112-120 | a successful write makes now appear in the times of both keys and adds at most that time |
| DocProperties.NewestAfterPut | doc.go:257 | a write at a second After every listed time becomes the newest, readable revision |
| DocProperties.LatestAfterWrite | doc.go:248-262 | after a write at a second After every revision, the latest revision under the name and under the hash name is the one just written |
| DocProperties.HistoryOfTwoWrites | doc.go:149 | two writes of a new name at t1 and then t2 After it: newest is t2, both revisions are readable, and the history newest first is exactly [t2, t1] |
| DocProperties.TwoFileHistory | doc.go:112-113 | the directory two writes at t1 and a later t2 leave lists [t1, t2], its newest time is t2, and sorted newest first it is exactly [t2, t1] |
| DocProperties.TwoTimesNewestFirst | doc.go:149 | two times, one After the other, have exactly one newest-first order |
| DocProperties.ListedTimeWithoutRevision | doc.go:136 | a file named "007" is listed as second 7, but the revision at 7 is not readable, so a latest read of it fails with NotExist |
| DocProperties.WrappedSecondSortsOldest | doc.go:257 | with files for second 0 and for MaxInt64, the wrapped MaxInt64 sorts oldest, so the newest time is 0 and a latest read returns the file of second 0 |
| DocProperties.SaveThenViewLatest | doc.go:248-298 | saving and then reading latest, by name and by hash, returns the saved content at the save second |

## Left out

- HTML rendering (`Doc.HTML`, doc.go:216-226) uses the goldmark markdown library, which is not part of this model.
- The HTTP routes, templates, configuration and program start-up (routes.go, template.go, config.go, main.go) are not part of this model.
- SHA-256 is the parameter `sha` of `Base64Url.HashName` and of the reads. Only its 32-byte output length is modelled.
- The clock: `time.Now()` in `Doc.Write` is the parameter `now`. Its Unix seconds are an int64.
- Logging (`log.Println`) is left out. It has no effect on results.
- Concurrency: simultaneous requests and the interleaving of two writers' four file operations are not modelled. Each call runs alone.
- Docs.GatherTimes: the listing is flat. Sub-directories of a key directory, which `filepath.Walk` would enter, are not modelled.
- Docs.GatherTimes: files are visited in storage order, not in `filepath.Walk`'s lexical order. Only the multiset of times reaches the sorted result, so this changes nothing observable.
- FileSystem.Disk.WriteFile: a failure partway through writing or closing leaves the file untouched in the model. The operating system may leave truncated or partial content.
- FileSystem.Disk.ReadFile: read-side I/O errors other than a missing file are not modelled. Neither are permission modes 0600/0700, a key path that is a file rather than a directory, nor the buffer sizing of doc.go:70-101.
- FileSystem.Disk.MkdirAll: only the key directory is created. The roots DataDir and HashDir are assumed to be creatable.
- TimeSlices.TimeSlice.Sort: Go's sort.Sort runs insertion sort only on short slices and pattern-defeating quicksort on longer ones. The model uses insertion sort for every length. Both give the same newest-first sequence of integers.
- Docs.ReadDocLatest: a directory with no parsable time is a precondition. The Go code panics on `(*doc.Times)[0]` in that case.
- Docs.ReadHashLatest: a directory with no parsable time is a precondition, for the same reason.
- Docs.CollectTimes: the panic on a missing key directory becomes the returned error `NilInfoPanic`. The model does not capture the panic unwinding the request.
- TimeSlice is declared twice in the Go code, in doc.go:32-41 and in timeslice.go. The two declarations are identical, and the model has one class.
- FileSystem.Key: a key is the document name or hash name as given. `filepath.Join` (doc.go:109, doc.go:112) cleans the name before use, and the model does not. So "a", "a/" and "./a" are three keys in the model but one directory on disk, each with a different hash name. The name "" is DataDir itself, whose walk would visit every document. The two-key consistency of DocProperties.WriteStoresBoth, DocProperties.LatestAfterWrite and DocProperties.SaveThenViewLatest therefore holds only for names that `filepath.Join` leaves unchanged.
