/** The service that keeps one placeholder document per blog in a root
    directory. The directory is modelled as a map from file names to contents;
    the file system calls become lookups and updates of that map. */
module BlogStreamers {
  import Decimal
  import opened Wrappers
  import opened Blogs
  import opened PdfStub

  /** The errors the service raises: `NotADirectoryError`, `FileExistsError`
      and `FileNotFoundError`. */
  datatype StreamError = NotADirectory | AlreadyExists(name: string) | NotFound(name: string)

  /** The files of the root directory, by name. */
  datatype Streamer = Streamer(files: map<string, seq<byte>>)

  /** `BlogStreamerService(root)`: fails when the root does not exist. */
  function NewStreamer(rootExists: bool, files: map<string, seq<byte>>): (r: Result<Streamer, StreamError>)
    ensures r.Err? <==> !rootExists
    ensures r.Err? ==> r.error == NotADirectory
    ensures r.Ok? ==> r.value.files == files
  {
    if !rootExists then Err(NotADirectory) else Ok(Streamer(files))
  }

  /** `_create_id`: the serial number, a dash, the slug and `.pdf`. */
  function StreamId(b: Blog): string {
    Decimal.IntToString(b.id) + "-" + b.slug + ".pdf"
  }

  /** The name determines the serial number and the slug: distinct blogs
      (by identity) never share a placeholder. */
  lemma StreamIdInjective(a: Blog, b: Blog)
    requires StreamId(a) == StreamId(b)
    ensures a.id == b.id && a.slug == b.slug
  {
    var x, y := a.slug + ".pdf", b.slug + ".pdf";
    assert StreamId(a) == Decimal.IntToString(a.id) + ['-'] + x;
    assert StreamId(b) == Decimal.IntToString(b.id) + ['-'] + y;
    Decimal.IntToStringPrefixInjective(a.id, x, b.id, y, '-');
    assert a.slug == x[..|x| - 4] == y[..|y| - 4] == b.slug;
  }

  /** `open(blog)`: the bytes of the blog's placeholder. */
  function Open(s: Streamer, b: Blog): (r: Result<seq<byte>, StreamError>)
    ensures r.Err? <==> StreamId(b) !in s.files
    ensures r.Err? ==> r.error == NotFound(StreamId(b))
    ensures r.Ok? ==> r.value == s.files[StreamId(b)]
  {
    var name := StreamId(b);
    if name in s.files then Ok(s.files[name]) else Err(NotFound(name))
  }

  /** `delete(blog)`: removes the blog's placeholder, and only it. */
  function Delete(s: Streamer, b: Blog): (r: Result<Streamer, StreamError>)
    ensures r.Err? <==> StreamId(b) !in s.files
    ensures r.Err? ==> r.error == NotFound(StreamId(b))
    ensures r.Ok? ==> StreamId(b) !in r.value.files
    ensures r.Ok? ==> forall n :: n != StreamId(b) ==>
      (n in r.value.files <==> n in s.files) && (n in s.files ==> r.value.files[n] == s.files[n])
  {
    var name := StreamId(b);
    if name !in s.files then Err(NotFound(name)) else Ok(Streamer(s.files - {name}))
  }

  /** `init(blog)`: writes the placeholder under the blog's name, unless a file
      of that name exists. */
  function Init(s: Streamer, b: Blog): (r: Result<Streamer, StreamError>)
    ensures r.Err? <==> StreamId(b) in s.files
    ensures r.Err? ==> r.error == AlreadyExists(StreamId(b))
    ensures r.Ok? ==> StreamId(b) in r.value.files && r.value.files[StreamId(b)] == Stub(StreamId(b))
    ensures r.Ok? ==> forall n :: n != StreamId(b) ==>
      (n in r.value.files <==> n in s.files) && (n in s.files ==> r.value.files[n] == s.files[n])
  {
    var name := StreamId(b);
    if name in s.files then Err(AlreadyExists(name)) else Ok(Streamer(s.files[name := Stub(name)]))
  }

  /** After `init`, `open` gives a document that starts with the PDF header,
      ends with the end-of-file marker and declares the byte length of its
      stream. */
  lemma InitThenOpen(s: Streamer, b: Blog)
    requires StreamId(b) !in s.files
    ensures Init(s, b).Ok?
    ensures var d := Open(Init(s, b).value, b);
      d.Ok? && StartsWith(d.value, Ascii(Header)) && EndsWith(d.value, Ascii(Eof))
      && ReadStartxref(d.value).Some?
      && DeclaredLength(d.value) == Some(|Encode(StreamId(b))|)
  {
    var name := StreamId(b);
    StubFrame(name, |Encode(name)|);
    ReadStartxrefOfAssemble(name, |Encode(name)|);
    DeclaredLengthOfAssemble(name, |Encode(name)|);
  }

  /** `init` then `delete` gives back the directory as it was before. */
  lemma InitThenDelete(s: Streamer, b: Blog)
    requires StreamId(b) !in s.files
    ensures Init(s, b).Ok?
    ensures Delete(Init(s, b).value, b) == Ok(s)
  {
    var name := StreamId(b);
    var written := Init(s, b).value;
    assert written.files == s.files[name := Stub(name)];
    WriteThenRemove(s.files, name, Stub(name));
  }

  /** Writing a new file and removing it leaves the directory as it was. */
  lemma WriteThenRemove(files: map<string, seq<byte>>, name: string, data: seq<byte>)
    requires name !in files
    ensures files[name := data] - {name} == files
  {
  }

  /** A second `init` of the same blog fails; a `delete` after a `delete`
      fails too. */
  lemma RepeatFails(s: Streamer, b: Blog)
    ensures Init(s, b).Ok? ==> Init(Init(s, b).value, b) == Err(AlreadyExists(StreamId(b)))
    ensures Delete(s, b).Ok? ==> Delete(Delete(s, b).value, b) == Err(NotFound(StreamId(b)))
  {
  }

  /** Initializing a blog does not touch the placeholder of a blog with a
      different serial number. */
  lemma InitKeepsOtherBlogs(s: Streamer, a: Blog, b: Blog)
    requires a.id != b.id && Init(s, a).Ok?
    ensures Open(Init(s, a).value, b) == Open(s, b)
  {
    if StreamId(a) == StreamId(b) {
      StreamIdInjective(a, b);
    }
    var files := Init(s, a).value.files;
    assert StreamId(b) in files <==> StreamId(b) in s.files;
  }
}
