# A Dafny model of the blog and portfolio core of INSPXRXD/me

The site is a Django application with two parts: a blog and a portfolio.
This project models their domain layer and the few pure rules that sit in
the infrastructure code. It covers:

- The blog:
  - `BlogContent` and its substring search.
  - The `Blog` aggregate: slug, identity and `edit`.
  - The `BlogCategory` enumeration.
- The portfolio: `ProjectContent` with its comma-separated lists, and the
  `Project` record.
- The conversions between these aggregates and their database rows, including
  the generic bulk mapper.
- The repository contracts: `get`, `get_all` and `save`, as an upsert keyed by
  serial number or title.
- `BlogStreamerService`: the directory of per-blog placeholder files, and the
  byte layout of the placeholder PDF.
- The two signal handlers that keep that directory in step with the blog table.
- The list-building rules of the blog views: search, categories, and one
  category.
- The skill rules of the portfolio models: rate clamping, tag derivation and
  the two-level grouping shown on the about page.

Everything is modelled with immutable datatypes and pure functions:

- A repository is a sequence of rows with unique keys.
- The streamer is a map from file names to file contents.
- Python dictionaries filled in insertion order are sequences of
  (key, value) pairs.
- The loops of the search view and of `group_skills` are Dafny methods. Their
  loop invariants tie them to the reference definitions.

Modules follow the source files:

| Dafny modules | Python source |
|---|---|
| `Text`, `Decimal` | the `str` operations and `str(int)` |
| `Sorting` | filtering and Python's stable `sort` |
| `Grouping` | `defaultdict(list)` |
| `BlogContents`, `Blogs`, `BlogCategories` | the blog domain |
| `ProjectContents`, `Projects` | the portfolio domain |
| `Mappers`, `BlogMappers`, `ProjectMappers` | the mappers |
| `Repositories`, `BlogRepositories`, `ProjectRepositories` | the repositories |
| `PdfStub`, `BlogStreamers` | the streamer |
| `Callbacks` | the signal handlers |
| `BlogViews` | the blog views |
| `SkillModels` | the portfolio models |

The placeholder document's layout is stated in terms of ISO 32000-1:

- Section 7.5.2: the `%PDF-1.0` header.
- Section 7.5.4: 20-byte cross-reference entries.
- Section 7.5.5: `startxref` holds the byte offset of `xref`.
- Section 7.3.8.2: `/Length` is the number of bytes of the stream.

## Model

| member | source | states |
|---|---|---|
| BlogContents.AnyContains | test_impl/blog/domain/test_blog_content.py:65-68 | scanning the fields in order and stopping at the first hit is true exactly when some field holds the item (`any(item in value ...)`) |
| BlogContents.Contains | src/modules/blog/domain/blog_content.py:48-84 | case-sensitive: true iff the item is a substring of the title, the meta text or the body; by default: iff the lowered item is a substring of one of the lowered fields |
| BlogContents.In | src/modules/blog/domain/blog_content.py:43-46 | `item in content` for a string is the case-insensitive search over the three fields |
| BlogContents.InsensitiveIsSensitiveOnLowered | src/modules/blog/domain/blog_content.py:76-78 | the default search equals the case-sensitive search of the lowered item in the lowered fields |
| BlogContents.InsensitiveIgnoresItemCase | src/modules/blog/domain/blog_content.py:76-77 | two items that lower to the same string give the same default search result |
| BlogContents.SensitiveImpliesInsensitive | src/modules/blog/domain/blog_content.py:76-84 | a case-sensitive match is also a case-insensitive match |
| BlogContents.EmptyIsAlwaysContained | src/modules/blog/domain/blog_content.py:80-82 | the empty string is found in every content, in both modes |
| Text.Contains | src/modules/blog/domain/blog_content.py:81 | the left-to-right scan answers `needle in hay` exactly when the needle occurs at some position |
| Text.LowerKeepsSubstring | src/modules/blog/domain/blog_content.py:76-78 | lowering both strings keeps an occurrence |
| Text.Strip | src/modules/portfolio/domain/project_content.py:31 | `strip()` removes exactly the whitespace around the text: the result is a slice of the input with only whitespace before and after it, and it neither starts nor ends with whitespace; an already trimmed string is unchanged |
| Text.JoinPrependFirst | src/modules/portfolio/domain/project_content.py:30-32 | text put before the first part of a join is put before the joined string |
| Text.StripUnique | src/modules/portfolio/domain/project_content.py:31 | two slices that each leave only whitespace around them and do not start or end with whitespace are the same string |
| Text.StripIsTheStrip | src/modules/portfolio/domain/project_content.py:31 | any string with that relation to the input is what `strip()` returns |
| Text.ReplaceChar | src/modules/blog/domain/blog_category.py:39 | `str.replace` of one character keeps the length, turns every `a` into `b` and keeps every other character |
| Text.JoinSplit | src/modules/portfolio/domain/project_content.py:30-32 | joining the pieces of `s.split(c)` with `c` gives back `s` |
| Text.SplitJoin | src/modules/portfolio/domain/project_content.py:30-32 | splitting a join of separator-free pieces at the separator gives the pieces back |
| Text.SplitAt | src/modules/portfolio/domain/project_content.py:31 | `split` cuts at every separator and keeps empty pieces, so k separators give k + 1 pieces |
| Text.SplitPiecesHaveNoSeparator | src/modules/portfolio/domain/project_content.py:31 | no piece of a split holds the separator |
| Text.SplitConcat | src/modules/blog/domain/blog.py:214 | splitting `a + c + b` at the separator `c` is the split of `a` followed by the split of `b` |
| Text.NonEmpty | src/modules/blog/domain/blog.py:207-217 | the generator `if _` keeps exactly the non-empty pieces |
| Decimal.ParseNatToString | src/modules/blog/application/services/blog_streamer.py:138 | reading back the digits `str(n)` writes gives `n` |
| Decimal.IntToStringPrefixInjective | src/modules/blog/application/services/blog_streamer.py:138 | `str(a) + "-" + x == str(b) + "-" + y` forces `a == b` and `x == y`, negative numbers included |
| Blogs.NewBlog | src/modules/blog/domain/blog.py:81-99 | a supplied slug is stored unchanged; without one the slug is derived from the title; every other part is stored as given |
| Blogs.MakeSlug | src/modules/blog/domain/blog.py:207-217 | a slug holds no space and no upper-case letter, and only ASCII characters |
| Blogs.MakeSlugOfAscii | src/modules/blog/domain/blog.py:207-217 | on an ASCII title the slug is `"-".join` of the non-empty pieces of the lowered title split at spaces |
| Blogs.SlugWordsAtSpace | src/modules/blog/domain/blog.py:213-216 | a space splits the slug words of the two sides independently |
| Blogs.SlugIgnoresLeadingSpace | src/modules/blog/domain/blog.py:214-216 | a leading space does not change the slug |
| Blogs.SlugIgnoresTrailingSpace | src/modules/blog/domain/blog.py:214-216 | a trailing space does not change the slug |
| Blogs.SlugIgnoresRepeatedSpace | src/modules/blog/domain/blog.py:214-216 | two spaces in a row give the same slug as one |
| Blogs.SlugOfSpacesIsEmpty | src/modules/blog/domain/blog.py:207-217 | a title made only of spaces has the empty slug |
| Blogs.SlugExample | src/modules/blog/domain/blog.py:207-217 | `"  a  b "` and `"a b"` both give the slug `a-b`, for any two lower-case letters |
| Blogs.MakeSlugIsFixedPoint | src/modules/blog/domain/blog.py:207-217 | deriving a slug from a slug gives it back |
| Blogs.EqualityByIdentity | src/modules/blog/domain/blog.py:101-107 | blog equality is an equivalence on serial numbers only, and two blogs are equal exactly when their `__hash__` values are |
| Blogs.ContainsWord | src/modules/blog/domain/blog.py:155-180 | `contains_word` is true exactly when one of the three content fields holds the word, under the chosen case mode |
| Blogs.Edit | src/modules/blog/domain/blog.py:220-249 | each supplied part replaces the current one and each omitted part is kept; serial number, slug and time never change |
| Blogs.EditNothingIsNoOp | src/modules/blog/domain/blog.py:244-249 | `edit()` without arguments changes nothing |
| Blogs.EditKeepsIdentityAndSlug | src/modules/blog/domain/blog.py:244-249 | an edit of the content keeps the blog equal to itself and does not re-derive the slug |
| Blogs.EditTwice | src/modules/blog/domain/blog.py:244-249 | two edits in a row are one edit in which the later supplied arguments win |
| BlogCategories.GenerateValue | src/modules/blog/domain/blog_category.py:38-41 | a generated value has the name's length, no upper-case letter and no underscore; each position is `-` where the name has `_` and the lowered name's character elsewhere |
| BlogCategories.GenerateValueIsLowerThenReplace | src/modules/blog/domain/blog_category.py:39 | the value is `name.lower()` followed by `replace("_", "-")`, as two separate steps |
| BlogCategories.MemberValues | src/modules/blog/domain/blog_category.py:43-54 | the values are `uncategorized` and `application-architect` |
| BlogCategories.FromValue | src/modules/blog/domain/blog_category.py:43-57 | the lookup by value finds the member with that value, and fails exactly when no member has it |
| BlogCategories.FromValueOfValue | src/modules/blog/domain/blog_category.py:56-57 | looking a member up by its string form gives the member back |
| BlogCategories.ValuesAreDistinct | src/modules/blog/domain/blog_category.py:43-54 | distinct members have distinct values |
| BlogCategories.MembersAreAll | src/modules/blog/domain/blog_category.py:43-54 | the enumeration is closed: every category is one of two distinct members |
| ProjectContents.SplitByComma | src/modules/portfolio/domain/project_content.py:30-32 | one item per piece of `split(",")`, so one per comma plus one and never empty; each item is its piece with exactly the surrounding whitespace removed, and is trimmed |
| ProjectContents.SplitByCommaItems | src/modules/portfolio/domain/project_content.py:31 | each item is a slice of the matching piece between commas and holds no comma |
| ProjectContents.FeaturesList | src/modules/portfolio/domain/project_content.py:46-50 | the features split by comma, or `[""]` when there are none |
| ProjectContents.TechnologiesList | src/modules/portfolio/domain/project_content.py:52-57 | the technologies split by comma |
| ProjectContents.JoinSplitByComma | src/modules/portfolio/domain/project_content.py:30-32 | when no piece between commas has whitespace at its ends, joining the list with `,` gives back the string |
| ProjectContents.SplitByCommaOfJoin | src/modules/portfolio/domain/project_content.py:30-32 | a non-empty list of trimmed, comma-free items written with `,` splits back into that list |
| ProjectContents.Spaced | src/modules/portfolio/domain/project_content.py:30-32 | the pieces between the commas of a list written with `", "`: the first item, then each later item after a space |
| ProjectContents.JoinSpaced | src/modules/portfolio/domain/project_content.py:30-32 | writing a list with `", "` is writing its spaced pieces with `,` |
| ProjectContents.SpacedPiece | src/modules/portfolio/domain/project_content.py:31 | a spaced piece of a trimmed, comma-free item holds no comma and strips to the item |
| ProjectContents.SplitByCommaOfPieces | src/modules/portfolio/domain/project_content.py:30-32 | a string whose pieces are the spaced items splits into the items |
| ProjectContents.SplitByCommaOfSpacedJoin | src/modules/portfolio/domain/project_content.py:30-32 | a non-empty list of trimmed, comma-free items written with `", "` splits back into that list: the space after each comma is dropped |
| ProjectContents.SplitByCommaExample | test_impl/portfolio/domain/test_project_content.py:31-36 | `"a,b,c,d"` with single letters gives the four letters, one per item |
| Projects.NewProject | src/modules/portfolio/domain/project.py:70-121 | each accessor reads back the value the record was built with |
| Projects.ProjectIsItsParts | src/modules/portfolio/domain/project.py:61-82 | a project is determined by its five parts, and rebuilding it from them gives it back |
| Mappers.DataMapper.ModelsToEntities | src/shared/infrastructure/mapper.py:42-46 | one entity per model, the i-th being the conversion of the i-th model |
| Mappers.DataMapper.EntitiesToModels | src/shared/infrastructure/mapper.py:48-52 | one model per entity, the i-th being the conversion of the i-th entity |
| Mappers.ModelsToEntitiesConcat | src/shared/infrastructure/mapper.py:42-46 | bulk conversion distributes over concatenation, so order is kept |
| Mappers.EntitiesToModelsConcat | src/shared/infrastructure/mapper.py:48-52 | bulk conversion distributes over concatenation, so order is kept |
| Mappers.BulkRoundTrip | src/shared/infrastructure/mapper.py:42-52 | single conversions that are inverse on some models make the bulk conversions inverse on any sequence of those models |
| BlogMappers.EntityToModel | src/modules/blog/infrastructure/persistence/blog_mapper.py:42-54 | every part of the blog goes to its column, and the category column holds a string that looks up the blog's category |
| BlogMappers.ModelToEntity | src/modules/blog/infrastructure/persistence/blog_mapper.py:56-70 | fails exactly when the category column is no member's value; otherwise the stored slug is kept and the category is the one named |
| BlogMappers.ModelToEntityOfEntityToModel | src/modules/blog/infrastructure/persistence/blog_mapper.py:42-70 | blog to row to blog gives the same blog, field for field |
| BlogMappers.EntityToModelOfModelToEntity | src/modules/blog/infrastructure/persistence/blog_mapper.py:42-70 | row to blog to row gives the same row whenever the category is valid |
| ProjectMappers.ModelToEntity | src/modules/portfolio/infrastructure/persistence/project_mapper.py:45-64 | every column goes into its part of the project, and a `NULL` features column gives no features |
| ProjectMappers.EntityToModelAsWritten | src/modules/portfolio/infrastructure/persistence/project_mapper.py:66-79 | the code as written: title, description, links and date are copied, technologies keeps the column default, and features receives the split list |
| ProjectMappers.AsWrittenKeepsScalars | src/modules/portfolio/infrastructure/persistence/project_mapper.py:45-79 | row to project to row, as written, keeps the title, the description, the three links and the date, and empties the technologies |
| ProjectMappers.AsWrittenLosesTechnologies | src/modules/portfolio/infrastructure/persistence/project_mapper.py:66-79 | a project with technologies `"1"` gets a row without them, and a row whose features are a list rather than text |
| ProjectMappers.EntityToModel | src/modules/portfolio/infrastructure/persistence/project_mapper.py:66-79 | the corrected conversion: every part of the content is written to its own column |
| ProjectMappers.ModelToEntityOfEntityToModel | src/modules/portfolio/infrastructure/persistence/project_mapper.py:45-79 | with the corrected conversion, project to row to project gives the same project |
| ProjectMappers.EntityToModelOfModelToEntity | src/modules/portfolio/infrastructure/persistence/project_mapper.py:45-79 | with the corrected conversion, a stored row to project to row gives the same row |
| ProjectMappers.AsWrittenAgreesElsewhere | src/modules/portfolio/infrastructure/persistence/project_mapper.py:70-78 | the conversion as written and the corrected one differ only in the technologies and features columns |
| Repositories.Get | src/modules/blog/domain/blog_repository.py:45-65 | the aggregate stored under the key, or nothing exactly when no stored aggregate has that key |
| Repositories.Save | src/modules/blog/domain/blog_repository.py:104-117 | after a save the aggregate is stored, and the count grows by one exactly when its key was new |
| Repositories.SaveKeepsValid | src/modules/blog/domain/blog_repository.py:104-117 | a save keeps the keys unique |
| Repositories.GetAfterSave | src/modules/blog/domain/blog_repository.py:104-117 | after saving `v`, reading `v`'s key gives `v` |
| Repositories.SaveKeepsOthers | src/modules/blog/domain/blog_repository.py:104-117 | a save leaves what is stored under every other key unchanged |
| Repositories.SaveRows | src/modules/blog/domain/blog_repository.py:104-117 | after a save, the rows are the saved aggregate plus exactly the earlier rows with other keys (an upsert) |
| Repositories.SaveAllFresh | test_impl/blog/infrastructure/test_blog_repository.py:74-83 | saving aggregates with new, distinct keys appends them in order |
| Repositories.GetAll | src/modules/blog/domain/blog_repository.py:67-102 | the stored aggregates passing the filter, each as often as stored, in storage order when no order is given |
| Repositories.GetAllMembers | src/modules/blog/domain/blog_repository.py:67-102 | an aggregate is listed exactly when it is stored and passes the filter |
| Repositories.GetAllSorted | src/modules/blog/domain/blog_repository.py:67-102 | with an order that is a sort key, the listing is sorted by it |
| Repositories.GetAllSortedWhenOrdered | src/modules/blog/domain/blog_repository.py:67-102 | the same for an optional order: when one is given and is a sort key, the listing is sorted by it |
| Repositories.GetAllHead | src/modules/blog/domain/blog_repository.py:67-102 | the head of an ordered listing is stored and comes no later than any stored aggregate |
| Repositories.GetAllOfEmpty | test_impl/blog/infrastructure/test_blog_repository.py:71-72 | a fresh repository lists nothing |
| BlogRepositories.GetBlog | src/modules/blog/domain/blog_repository.py:45-65 | the stored blog with that serial number, or nothing exactly when there is none |
| BlogRepositories.SaveBlog | src/modules/blog/domain/blog_repository.py:104-117 | afterwards the blog is read back by its serial number, every other serial number reads as before, and the count grows exactly for a new one |
| BlogRepositories.GetAllBlogs | src/modules/blog/domain/blog_repository.py:67-102 | the stored blogs passing the filter, each as many times as it is stored (the same multiset), all of them when there is no filter; sorted by the order when one is given and is a sort key; in storage order when none is given |
| BlogRepositories.OrdersAreSortKeys | src/modules/blog/domain/blog_repository.py:67-102 | `-sno` and `-time` are sort keys |
| BlogRepositories.SnoAtLeastIsSuffix | test_impl/blog/infrastructure/test_blog_repository.py:89-93 | on consecutively numbered blogs, `sno__gte` k keeps the suffix from k |
| BlogRepositories.SaveNumberedBlogs | test_impl/blog/infrastructure/test_blog_repository.py:53-93 | with blogs 0 to n - 1: a fresh repository reads nothing; after saving, all come back in order, and `sno__gte` k gives the n - k blogs from k on |
| BlogRepositories.SnoDescendingHead | test_impl/blog/infrastructure/test_blog_repository.py:86-87 | ordered by `-sno`, the head has the greatest serial number |
| BlogRepositories.NewestSnoFirst | test_impl/blog/infrastructure/test_blog_repository.py:74-87 | after saving blogs 0 to n - 1, ordering by `-sno` puts blog n - 1 first |
| ProjectRepositories.GetProject | src/modules/portfolio/domain/project_repository.py:45-65 | the stored project with that title, or nothing exactly when there is none |
| ProjectRepositories.SaveProject | src/modules/portfolio/domain/project_repository.py:104-117 | an upsert keyed by title: the project is read back by its title, every other title reads as before, and the count grows exactly for a new title |
| ProjectRepositories.GetAllProjects | src/modules/portfolio/domain/project_repository.py:67-102 | the stored projects passing the filter, each as many times as it is stored (the same multiset), all of them when there is no filter; sorted by the order when one is given and is a sort key; in storage order when none is given |
| ProjectRepositories.ByTitleDescendingIsSortKey | src/modules/portfolio/domain/project_repository.py:67-102 | `-title` is a sort key |
| ProjectRepositories.TitleDescendingHead | test_impl/portfolio/infrastructure/test_project_repository.py:88-91 | ordered by `-title`, the head has the greatest title |
| ProjectRepositories.SaveDigitTitledRows | test_impl/portfolio/infrastructure/test_project_repository.py:74-86 | the projects titled `"0"` to `"9"`, saved into a fresh repository, are stored in order |
| ProjectRepositories.GreatestTitleFirst | test_impl/portfolio/infrastructure/test_project_repository.py:88-91 | among those projects, `-title` puts `"9"` first |
| ProjectRepositories.SaveDigitTitledProjects | test_impl/portfolio/infrastructure/test_project_repository.py:53-91 | a fresh repository reads and lists nothing; after saving `"0"` to `"9"` all ten come back with `"0"` first, and `-title` puts `"9"` first |
| Sorting.Filter | src/modules/blog/infrastructure/django/views.py:137-139 | the filtered list holds only elements that pass, and every element of the input that passes |
| Sorting.FilterComplement | src/modules/blog/infrastructure/django/views.py:70-79 | a predicate and its complement split a list between them: their filtered lengths add up to its length |
| Sorting.FilterFilter | src/modules/portfolio/infrastructure/persistence/models.py:155-156 | filtering by one key and then another is filtering by both at once |
| Sorting.Distinct | src/modules/blog/infrastructure/django/views.py:99-103 | the elements of the input, each exactly once |
| Sorting.Sort | src/modules/blog/infrastructure/django/views.py:141 | `sort` returns a permutation of its input |
| Sorting.SortSorted | src/modules/blog/infrastructure/django/views.py:141 | with a sort key, the sorted list is in order |
| Sorting.SortStable | src/modules/blog/infrastructure/django/views.py:141 | the sort is stable: elements of equal key keep their input order |
| Sorting.StrLeIsTotalPreorder | src/modules/blog/infrastructure/django/views.py:102 | string comparison is a sort key |
| Sorting.StrLeAntisymmetric | src/modules/blog/infrastructure/django/views.py:102 | two strings each no greater than the other are equal |
| Grouping.IndexOf | src/modules/portfolio/infrastructure/persistence/models.py:156 | a dictionary lookup finds the key's position, or reports that no entry has the key |
| Grouping.Append | src/modules/portfolio/infrastructure/persistence/models.py:156 | `groups[k].append(v)`: for a present key, the keys and their order stay, `v` is added at the end of that key's list and every other list is unchanged; a new key adds `(k, [v])` at the end |
| Grouping.GroupByShape | src/modules/portfolio/infrastructure/persistence/models.py:149-156 | the reference grouping has distinct keys, a non-empty list under each, exactly the elements of that key in their order, and a key for every element |
| Grouping.GroupBySnoc | src/modules/portfolio/infrastructure/persistence/models.py:155-156 | one more element appends it under its key in the reference grouping |
| Grouping.FillGroupsIsGroupBy | src/modules/portfolio/infrastructure/persistence/models.py:149-156 | filling a `defaultdict(list)` element by element gives the reference grouping |
| PdfStub.EncodeChar | src/modules/blog/application/services/blog_streamer.py:62 | the UTF-8 form of one character: one byte exactly for ASCII, otherwise a lead byte followed by continuation bytes |
| PdfStub.Encode | src/modules/blog/application/services/blog_streamer.py:62 | `str.encode()` is never shorter than the text, and as long exactly when the text is ASCII |
| PdfStub.EncodeConcat | src/modules/blog/application/services/blog_streamer.py:61-62 | encoding distributes over concatenation |
| PdfStub.ParseContentOfContent | src/modules/blog/application/services/blog_streamer.py:59-64 | reading the content object gives back the announced length and the encoded stream name |
| PdfStub.StubLengthConsistent | src/modules/blog/application/services/blog_streamer.py:59-64 | with the byte count as `/Length` the content object is consistent for every stream name |
| PdfStub.AsWrittenLengthConsistentIff | src/modules/blog/application/services/blog_streamer.py:61 | with the character count as `/Length`, as written, the object is consistent exactly when the name is ASCII |
| PdfStub.AsWrittenLengthCounterexample | src/modules/blog/application/services/blog_streamer.py:61 | the name `1-é.pdf` has seven characters and eight bytes, and its object as written is inconsistent |
| PdfStub.StubAsWritten | src/modules/blog/application/services/blog_streamer.py:59-64 | the file as written declares, as read back from its bytes, a `/Length` equal to the number of characters of the stream name |
| PdfStub.Stub | src/modules/blog/application/services/blog_streamer.py:59-64 | the corrected file declares, as read back from its bytes, a `/Length` equal to the number of bytes of the encoded stream name |
| PdfStub.DeclaredLengthOfAssemble | src/modules/blog/application/services/blog_streamer.py:49-64 | the `/Length` read back from the file is the one it was assembled with |
| PdfStub.AssembleDeterminesLength | src/modules/blog/application/services/blog_streamer.py:61 | two files for the same name with different `/Length` values differ |
| PdfStub.StubAsWrittenIsStubIff | src/modules/blog/application/services/blog_streamer.py:61 | the placeholder as written equals the corrected one exactly when the stream name is ASCII |
| PdfStub.EncodedExampleLength | src/modules/blog/application/services/blog_streamer.py:62 | `1-é.pdf` encodes to eight bytes |
| PdfStub.StubAsWrittenCounterexample | src/modules/blog/application/services/blog_streamer.py:61 | for `1-é.pdf` the file as written declares seven bytes, the stream holds eight, and the file differs from the corrected one |
| PdfStub.HeaderBytes | src/modules/blog/application/services/blog_streamer.py:49 | the header line is `%PDF-1.0` and a line feed, byte for byte |
| PdfStub.StubFrame | src/modules/blog/application/services/blog_streamer.py:49-99 | the file starts with the header line and ends with the `%%EOF` line |
| PdfStub.XrefOfSection | src/modules/blog/application/services/blog_streamer.py:75-80 | the cross-reference section announces six entries and is followed by six 20-byte entries |
| PdfStub.ReadStartxrefOfAssemble | src/modules/blog/application/services/blog_streamer.py:72-99 | the `startxref` value is the total length of the six blocks before it, and reading the file from that offset finds the cross-reference section |
| PdfStub.RepeatBlocks | src/modules/blog/application/services/blog_streamer.py:77-79 | the k-th 20-byte block of the entry list is a free entry |
| BlogStreamers.NewStreamer | src/modules/blog/application/services/blog_streamer.py:129-134 | construction fails with not-a-directory exactly when the root does not exist |
| BlogStreamers.StreamIdInjective | src/modules/blog/application/services/blog_streamer.py:136-139 | the name `{id}-{slug}.pdf` determines the serial number and the slug |
| BlogStreamers.Open | src/modules/blog/application/services/blog_streamer.py:141-158 | the placeholder's bytes, or not-found exactly when no file has the blog's name |
| BlogStreamers.Delete | src/modules/blog/application/services/blog_streamer.py:160-171 | not-found exactly when the name is absent; otherwise exactly that name is removed |
| BlogStreamers.Init | src/modules/blog/application/services/blog_streamer.py:173-196 | already-exists exactly when the name is present; otherwise the placeholder is written under that name and nothing else changes |
| BlogStreamers.InitThenOpen | test_impl/blog/application/test_blog_stream.py:73-94 | after `init`, `open` succeeds and gives a document with the header, the end marker, a readable `startxref` and a `/Length` equal to the byte length of the encoded stream name |
| BlogStreamers.InitThenDelete | test_impl/blog/application/test_blog_stream.py:96-111 | `init` then `delete` gives back the directory as it was |
| BlogStreamers.RepeatFails | src/modules/blog/application/services/blog_streamer.py:160-196 | a second `init` fails with already-exists, and a second `delete` fails with not-found |
| BlogStreamers.InitKeepsOtherBlogs | src/modules/blog/application/services/blog_streamer.py:136-196 | `init` does not change what `open` gives for a blog with another serial number |
| Callbacks.BlogCreated | src/modules/blog/infrastructure/django/callbacks.py:43-74 | nothing happens in tests or for an update; a mapping failure escapes; otherwise the placeholder is present afterwards and an existing one is kept; a missing one is added as the placeholder document for that name with every other entry unchanged, and no other name appears or disappears |
| Callbacks.Placed | src/modules/blog/infrastructure/django/callbacks.py:67-74 | `init` under `suppress(FileExistsError)`: the placeholder is present afterwards, an existing one leaves the directory as it was, a missing one is added and nothing else changes |
| Callbacks.BlogDeleted | src/modules/blog/infrastructure/django/callbacks.py:80-108 | nothing happens in tests; a mapping failure escapes; otherwise the placeholder is absent afterwards, a missing one is no error, and no other name or content changes |
| Callbacks.Removed | src/modules/blog/infrastructure/django/callbacks.py:101-108 | `delete` under `suppress(FileNotFoundError)`: the placeholder is absent afterwards, a missing one leaves the directory as it was, and no other name or content changes |
| Callbacks.NameFromRow | src/modules/blog/infrastructure/django/callbacks.py:64-65 | the placeholder name comes from the stored serial number and slug |
| Callbacks.HandlersAreIdempotent | src/modules/blog/infrastructure/django/callbacks.py:63-108 | delivering either signal twice has the effect of delivering it once |
| Callbacks.CreatedThenDeleted | src/modules/blog/infrastructure/django/callbacks.py:43-108 | creating a row and deleting it again restores the directory when the row had no placeholder |
| BlogViews.BlockMembers | src/modules/blog/infrastructure/django/views.py:137-139 | a blog is in a word's block exactly when it is listed and holds the word, once per listing |
| BlogViews.BlockSortedStable | src/modules/blog/infrastructure/django/views.py:141 | a block is sorted by time, oldest first, and blogs of equal time keep their listing order |
| BlogViews.Search | src/modules/blog/infrastructure/django/views.py:121-160 | no query gives no results and the no-query message; otherwise the results are the words' blocks in query order, and the message is empty exactly when something was found |
| BlogViews.CollectBlocks | src/modules/blog/infrastructure/django/views.py:136-142 | the loop over the query words builds exactly the reference results: each word's block, in query order |
| BlogViews.ExtendWithMatches | src/modules/blog/infrastructure/django/views.py:137-142 | one turn of the loop appends exactly the word's block, and nothing when no blog matches |
| BlogViews.ResultsLength | src/modules/blog/infrastructure/django/views.py:136-142 | nothing is deduplicated: the number of results is the sum of the matches of every word |
| BlogViews.ResultsMembers | src/modules/blog/infrastructure/django/views.py:136-142 | a blog is among the results exactly when it is listed and some word of the query is found in it |
| BlogViews.ResultsOfMoreWords | src/modules/blog/infrastructure/django/views.py:136-142 | one more query word appends its block to the results |
| BlogViews.CategoryValues | src/modules/blog/infrastructure/django/views.py:101 | one category value per listed blog, and exactly the values of the listed blogs |
| BlogViews.Categories | src/modules/blog/infrastructure/django/views.py:99-103 | exactly the category values of the stored blogs, without duplicates, sorted |
| BlogViews.SortedDistinctUnique | src/modules/blog/infrastructure/django/views.py:99-103 | a sorted duplicate-free list is determined by its elements, whatever order the set is visited in |
| BlogViews.CategoriesAreCanonical | src/modules/blog/infrastructure/django/views.py:99-103 | the category list is the only sorted, duplicate-free list of the stored values |
| BlogViews.CategoryPosts | src/modules/blog/infrastructure/django/views.py:70-79 | exactly the stored blogs of that category, each as many times as it is stored (the same multiset as the filtered rows), newest first, with the no-posts message exactly when there are none |
| BlogViews.CategoryPagesPartitionRows | src/modules/blog/infrastructure/django/views.py:70-79 | every stored blog is listed on exactly one of the two category pages: their post counts add up to the number of rows |
| BlogViews.CategoryPostsOfUnknown | src/modules/blog/infrastructure/django/views.py:70-79 | a name that is no category's value gives no posts and the no-posts message |
| SkillModels.ClampRate | src/modules/portfolio/infrastructure/persistence/models.py:110-111 | the rate is between 0 and 100, unchanged when in range, 0 below and 100 above |
| SkillModels.ClampRateProperties | src/modules/portfolio/infrastructure/persistence/models.py:111 | clamping is idempotent and keeps the order of rates |
| SkillModels.LetterTag | src/modules/portfolio/infrastructure/persistence/models.py:114-118 | the tag is lower-case letters, no longer than the name, and empty exactly when the name has no ASCII letter |
| SkillModels.LetterTagIsLoweredLetters | src/modules/portfolio/infrastructure/persistence/models.py:114-118 | the tag is the name's ASCII letters, lowered, in order |
| SkillModels.LetterTagIdempotent | src/modules/portfolio/infrastructure/persistence/models.py:114-118 | the tag of a tag is itself |
| SkillModels.ReplaceSpaces | src/modules/portfolio/infrastructure/persistence/models.py:122 | the replacement keeps the length and leaves no space |
| SkillModels.ReplaceSpacesWithoutSpace | src/modules/portfolio/infrastructure/persistence/models.py:114-122 | the replacement is a no-op on a string without spaces, as every tag is |
| SkillModels.Tag | src/modules/portfolio/infrastructure/persistence/models.py:114-122 | the tag is non-empty and has no space; it is the letter tag when the name has a letter, and the uuid hex otherwise |
| SkillModels.Save | src/modules/portfolio/infrastructure/persistence/models.py:113-124 | saving sets the derived tag and clamps the rate, and keeps every other field |
| SkillModels.SaveIsStable | src/modules/portfolio/infrastructure/persistence/models.py:113-124 | saving twice with the same uuid is saving once, and a name with a letter gets a tag that does not depend on the uuid |
| SkillModels.Nested | src/modules/portfolio/infrastructure/persistence/models.py:149-168 | the reference two-level grouping: by type, then each type's skills by category |
| SkillModels.NestedSnoc | src/modules/portfolio/infrastructure/persistence/models.py:155-156 | one more skill is appended under its type and category in the reference grouping |
| SkillModels.NestedSnocPresent | src/modules/portfolio/infrastructure/persistence/models.py:155-156 | a skill of a type already present is appended under its category within that type, and the other types are unchanged |
| SkillModels.NestedSnocNew | src/modules/portfolio/infrastructure/persistence/models.py:155-156 | a skill of a new type opens that type at the end, holding one category with that skill |
| SkillModels.GroupSkills | src/modules/portfolio/infrastructure/persistence/models.py:143-168 | the one-pass loop builds the reference two-level grouping |
| SkillModels.NestedShape | src/modules/portfolio/infrastructure/persistence/models.py:149-168 | each list holds exactly the skills of its type and category, in their original order; lists are non-empty; keys are distinct at both levels |
| SkillModels.NestedCovers | src/modules/portfolio/infrastructure/persistence/models.py:149-168 | every skill's type is a key, and its category is a key under that type |

## Left out

- Unicode case mapping: `str.lower()` is modelled on ASCII letters only, one character at a time. Characters whose Unicode lower case differs elsewhere (`İ`, which lowers to two characters, the Kelvin sign) are left as they are. A final capital sigma, which Python lowers to `ς` rather than `σ`, is also left as it is. This matters in `contains`, the slug and the skill tag.
- Text.LowerKeepsSubstring: holds for the per-character ASCII lowering only. Under Python's context-dependent lowering it fails: `"ΑΣ"` is in `"ΑΣΑ"`, but `"ας"` is not in `"ασα"`.
- BlogContents.SensitiveImpliesInsensitive: holds for the per-character ASCII lowering only. With Python's final-sigma rule, a case-sensitive match of `"ΑΣ"` in `"ΑΣΑ"` is not a case-insensitive match.
- NFKD normalisation in `make_slug` is not modelled. `Blogs.AsciiFold` keeps the ASCII characters and drops the rest, so a letter with a diacritic is dropped instead of being turned into its base letter. `Blogs.MakeSlugOfAscii` states the exact rule for ASCII titles.
- Blogs.MakeSlug: does not state the slug for a non-ASCII title beyond the ASCII fold, because NFKD needs Unicode tables.
- The whitespace class of `split()` and `strip()` is Python's `str.isspace()` set. It is written out as a constant table rather than derived from the Unicode database.
- The Django ORM implementations of the repositories are not modelled. The contract is modelled instead: filters are predicates, orders are comparison functions, and `save` is an upsert.
- The database's ordering of rows that compare equal is not modelled. The model's `sort` is stable over storage order.
- Integer columns have unbounded width: Django's `IntegerField` limits are not modelled.
- Pagination, template rendering, HTTP responses and `FileResponse` are not modelled.
- The search message is a string here. In the source it is a one-element tuple, because of a trailing comma.
- BlogViews.Quoted: renders `{category!r}` faithfully only for printable names without quotes or backslashes; `repr` escaping of other names is not modelled.
- The `blog` list view and the `blogpost` view only page, render or open files, so they are not modelled.
- The DI container, settings, app configuration, signal wiring, admin and migrations are not modelled. `settings.TESTING` is a parameter of the handlers.
- Callbacks.BlogCreated: a row whose category is no member value makes `model_to_entity` raise. That error escapes the handler, and the model returns it as `Err`.
- The file system is a map from names to contents. `os.path.join`, path normalisation, and the closing of returned handles are not modelled.
- BlogStreamers.Init: writes the corrected placeholder `PdfStub.Stub`, whose `/Length` is the byte count, not the character count that `_create_blog_source_stub` writes; the two agree exactly on ASCII names (`PdfStub.StubAsWrittenIsStubIff`).
- `_create_blog_source_stub` always writes. The placeholder is a byte layout; its validity as PDF is not modelled. Object number 1 is used twice and every cross-reference entry is free at offset 0, as in the source.
- `uuid.uuid4().hex` is a parameter: any string of 32 lower-case hexadecimal digits.
- Times are opaque integers.
- ProjectMappers.ModelToEntity: requires a row read from the table, whose features column is text or `NULL`. A row holding the list that `entity_to_model` assigns is never read back.
- The `BlogModel` slug column allows `NULL`. `BlogSlug(None)` is not modelled: the slug is a string in every row.
- `group_skills` returns `dict.items()` views of `defaultdict`s. The model returns the same insertion-ordered (key, list) pairs as sequences, and skills are grouped by the type and category primary keys.
- The value objects whose source is not part of this model (`BlogId`, `BlogSlug`, `BlogAsset`, `ProjectTitle`, `ProjectAsset`, `ProjectReference`) are plain values without validation.

## Findings

| source | as written | input that shows it | evidently intended | confidence | as-written member | corrected member |
|---|---|---|---|---|---|---|
| src/modules/portfolio/infrastructure/persistence/project_mapper.py:66-79 | `entity_to_model` does not pass `technologies`, so the row takes the column's empty default. It assigns `features_list`, a list, to the text column `features`. | a project with technologies `"1"`: its row has technologies `""` | every part of the content is written to its column, so a project survives a save and a read | not executed | ProjectMappers.EntityToModelAsWritten / ProjectMappers.AsWrittenLosesTechnologies | ProjectMappers.EntityToModel / ProjectMappers.ModelToEntityOfEntityToModel |
| src/modules/blog/application/services/blog_streamer.py:61 | `/Length` is `len(stream_id)`, a count of characters, but the stream holds `stream_id.encode()`, the UTF-8 bytes | the stream name `1-é.pdf`: seven characters, eight bytes | `/Length` is the number of bytes in the stream (section 7.3.8.2 of ISO 32000-1) | not executed | PdfStub.StubAsWritten / PdfStub.StubAsWrittenCounterexample | PdfStub.Stub / PdfStub.StubLengthConsistent |
