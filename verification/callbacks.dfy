/** The two signal handlers that keep the placeholders in step with the blog
    table: one after a row is saved, one after a row is deleted. The test
    setting is a parameter; the streamer is the directory model. */
module Callbacks {
  import Decimal
  import opened Wrappers
  import opened BlogMappers
  import opened BlogStreamers
  import PdfStub
  import opened Blogs

  /** What a handler leaves behind: the directory, or the mapping error that
      escapes it when the stored category is not a member value. */
  type Outcome = Result<Streamer, MapError>

  /** `blog_created`: outside tests, a newly created row gets its placeholder;
      an already existing placeholder is kept. */
  function BlogCreated(testing: bool, row: BlogModel, created: bool, s: Streamer): (r: Outcome)
    ensures testing || !created ==> r == Ok(s)
    ensures !testing && created && ModelToEntity(row).Err? ==> r == Err(ModelToEntity(row).error)
    ensures !testing && created && ModelToEntity(row).Ok? ==>
      var name := StreamId(ModelToEntity(row).value);
      r.Ok? && name in r.value.files
      && (name in s.files ==> r.value == s)
      && (name !in s.files ==> r.value.files == s.files[name := PdfStub.Stub(name)])
      && forall n :: n != name ==> (n in r.value.files <==> n in s.files)
  {
    if testing || !created then Ok(s)
    else
      var e := ModelToEntity(row);
      if e.Err? then Err(e.error) else Ok(Placed(s, e.value))
  }

  /** The directory after `init` for `blog`, with `AlreadyExists` swallowed. */
  function Placed(s: Streamer, blog: Blog): (r: Streamer)
    ensures StreamId(blog) in r.files
    ensures StreamId(blog) in s.files ==> r == s
    ensures StreamId(blog) !in s.files ==> r.files == s.files[StreamId(blog) := PdfStub.Stub(StreamId(blog))]
    ensures forall n :: n != StreamId(blog) ==> (n in r.files <==> n in s.files)
  {
    match Init(s, blog)
    case Ok(s') => s'
    case Err(_) => s
  }

  /** `blog_deleted`: outside tests, the row's placeholder is removed; a
      missing placeholder is not an error. */
  function BlogDeleted(testing: bool, row: BlogModel, s: Streamer): (r: Outcome)
    ensures testing ==> r == Ok(s)
    ensures !testing && ModelToEntity(row).Err? ==> r == Err(ModelToEntity(row).error)
    ensures !testing && ModelToEntity(row).Ok? ==>
      var name := StreamId(ModelToEntity(row).value);
      r.Ok? && name !in r.value.files
      && (name !in s.files ==> r.value == s)
      && (forall n :: n != name ==> (n in r.value.files <==> n in s.files))
      && forall n :: n != name && n in s.files ==> r.value.files[n] == s.files[n]
  {
    if testing then Ok(s)
    else
      var e := ModelToEntity(row);
      if e.Err? then Err(e.error) else Ok(Removed(s, e.value))
  }

  /** The directory after `delete` for `blog`, with `NotFound` swallowed. */
  function Removed(s: Streamer, blog: Blog): (r: Streamer)
    ensures StreamId(blog) !in r.files
    ensures StreamId(blog) !in s.files ==> r == s
    ensures forall n :: n != StreamId(blog) ==> (n in r.files <==> n in s.files)
    ensures forall n :: n != StreamId(blog) && n in s.files ==> r.files[n] == s.files[n]
  {
    match Delete(s, blog)
    case Ok(s') => s'
    case Err(_) => s
  }

  /** The placeholder name comes from the stored serial number and slug. */
  lemma NameFromRow(row: BlogModel)
    requires ModelToEntity(row).Ok?
    ensures StreamId(ModelToEntity(row).value) == Decimal.IntToString(row.sno) + "-" + row.slug + ".pdf"
  {
  }

  /** Both handlers are idempotent: a second delivery of the same signal
      changes nothing. */
  lemma HandlersAreIdempotent(testing: bool, row: BlogModel, created: bool, s: Streamer)
    ensures BlogCreated(testing, row, created, s).Ok? ==>
      BlogCreated(testing, row, created, BlogCreated(testing, row, created, s).value)
        == BlogCreated(testing, row, created, s)
    ensures BlogDeleted(testing, row, s).Ok? ==>
      BlogDeleted(testing, row, BlogDeleted(testing, row, s).value) == BlogDeleted(testing, row, s)
  {
  }

  /** Creating a row and deleting it again, outside tests, restores the
      directory when the row had no placeholder before. */
  lemma CreatedThenDeleted(row: BlogModel, s: Streamer)
    requires ModelToEntity(row).Ok? && StreamId(ModelToEntity(row).value) !in s.files
    ensures BlogCreated(false, row, true, s).Ok?
    ensures BlogDeleted(false, row, BlogCreated(false, row, true, s).value) == Ok(s)
  {
    InitThenDelete(s, ModelToEntity(row).value);
  }
}
