/**
 * The per-file acceptance rule of the drag-and-drop `FileUploader`
 * (`handleFiles`): a size limit, then an optional list of accepted MIME
 * types with wildcard entries (a type followed by a slash and a star). The upload itself (an XMLHttpRequest) and
 * the error text's human-readable size are not modelled; a decision records
 * which of the two happens.
 */
module FileUploader {
  import opened Wrappers
  import opened Strings

  /** A browser `File`: its name, its size in bytes and its MIME type (`""` when unknown). */
  datatype File = File(name: string, size: nat, mimeType: string)

  /** The options `handleFiles` reads. */
  datatype Options = Options(maxFileSize: nat, acceptedTypes: Option<string>)

  /** `5 * 1024 * 1024`: five mebibytes. */
  const DefaultMaxFileSize: nat := 5 * 1024 * 1024

  const DefaultOptions: Options := Options(DefaultMaxFileSize, None)

  /** What happens to one file: it is uploaded, or exactly one error is shown. */
  datatype Decision = Upload(file: File) | SizeError(file: File) | TypeError(file: File)

  /** JavaScript truthiness of `acceptedTypes`: `null` and `''` both switch the type check off. */
  predicate TypeCheckOn(opts: Options) {
    opts.acceptedTypes.Some? && opts.acceptedTypes.value != ""
  }

  /**
   * One entry of the split list. A wildcard entry (one ending in a slash and
   * a star) accepts every type that starts with the text before its first
   * slash-star, so the wildcard for `image` also accepts `imagex/png`; any
   * other entry needs an exact match.
   */
  predicate EntryAccepts(entry: string, fileType: string) {
    if EndsWith(entry, "/*") then
      var cut := IndexOf(entry, "/*");
      assert OccursAt(entry, "/*", |entry| - 2);
      StartsWith(fileType, entry[..cut])
    else
      entry == fileType
  }

  /** The `for ... of` loop with `break`: scans the entries until one accepts. */
  function AcceptedBy(entries: seq<string>, fileType: string): (r: bool)
    ensures r <==> exists k :: 0 <= k < |entries| && EntryAccepts(entries[k], fileType)
  {
    if entries == [] then false
    else if EntryAccepts(entries[0], fileType) then true
    else
      var r := AcceptedBy(entries[1..], fileType);
      assert forall k :: 1 <= k < |entries| ==> entries[k] == entries[1..][k - 1];
      r
  }

  /**
   * The decision for one file: the size check first, then the type check
   * when it is on. A type error means no entry of the list accepts the type.
   */
  function Decide(f: File, opts: Options): (r: Decision)
    ensures r.file == f
    ensures r.SizeError? <==> f.size > opts.maxFileSize
    ensures r.TypeError? <==>
      && f.size <= opts.maxFileSize && TypeCheckOn(opts)
      && forall k :: 0 <= k < |Split(opts.acceptedTypes.value, ',')| ==>
           !EntryAccepts(Split(opts.acceptedTypes.value, ',')[k], f.mimeType)
  {
    if f.size > opts.maxFileSize then SizeError(f)
    else if TypeCheckOn(opts) && !AcceptedBy(Split(opts.acceptedTypes.value, ','), f.mimeType) then TypeError(f)
    else
      assert TypeCheckOn(opts) ==>
        exists k :: 0 <= k < |Split(opts.acceptedTypes.value, ',')|
          && EntryAccepts(Split(opts.acceptedTypes.value, ',')[k], f.mimeType);
      Upload(f)
  }

  /** Independent statement of which files are uploaded. */
  predicate Acceptable(f: File, opts: Options) {
    && f.size <= opts.maxFileSize
    && (!TypeCheckOn(opts)
        || exists e :: e in Split(opts.acceptedTypes.value, ',') && EntryAccepts(e, f.mimeType))
  }

  /** The files, in order, that pass. */
  function FilterAcceptable(files: seq<File>, opts: Options): seq<File> {
    if files == [] then []
    else (if Acceptable(files[0], opts) then [files[0]] else []) + FilterAcceptable(files[1..], opts)
  }

  /** The uploads in a decision log, in order. */
  function Uploads(ds: seq<Decision>): seq<File> {
    if ds == [] then [] else (if ds[0].Upload? then [ds[0].file] else []) + Uploads(ds[1..])
  }

  lemma {:induction false} UploadsAppend(a: seq<Decision>, b: seq<Decision>)
    ensures Uploads(a + b) == Uploads(a) + Uploads(b)
  {
    if a == [] {
      assert a + b == b;
    } else {
      assert (a + b)[0] == a[0] && (a + b)[1..] == a[1..] + b;
      UploadsAppend(a[1..], b);
    }
  }

  lemma {:induction false} FilterAcceptableAppend(a: seq<File>, b: seq<File>, opts: Options)
    ensures FilterAcceptable(a + b, opts) == FilterAcceptable(a, opts) + FilterAcceptable(b, opts)
  {
    if a == [] {
      assert a + b == b;
    } else {
      assert (a + b)[0] == a[0] && (a + b)[1..] == a[1..] + b;
      FilterAcceptableAppend(a[1..], b, opts);
    }
  }

  lemma DecideAgrees(f: File, opts: Options)
    ensures Decide(f, opts).file == f
    ensures Decide(f, opts).Upload? <==> Acceptable(f, opts)
    ensures Decide(f, opts).SizeError? <==> f.size > opts.maxFileSize
  {
    if TypeCheckOn(opts) {
      var entries := Split(opts.acceptedTypes.value, ',');
      if AcceptedBy(entries, f.mimeType) {
        var k :| 0 <= k < |entries| && EntryAccepts(entries[k], f.mimeType);
        assert entries[k] in entries;
      }
    }
  }

  /**
   * `handleFiles`: each file, in order, is either uploaded or reported by
   * exactly one error; an oversized file only ever gets the size error; the
   * uploads are the acceptable files in their original order.
   */
  method HandleFiles(files: seq<File>, opts: Options) returns (ds: seq<Decision>)
    ensures |ds| == |files|
    ensures forall k :: 0 <= k < |files| ==> ds[k].file == files[k]
    ensures forall k :: 0 <= k < |files| ==> (ds[k].Upload? <==> Acceptable(files[k], opts))
    ensures forall k :: 0 <= k < |files| ==> (ds[k].SizeError? <==> files[k].size > opts.maxFileSize)
    ensures Uploads(ds) == FilterAcceptable(files, opts)
  {
    ds := [];
    if |files| == 0 {
      return;
    }
    var i := 0;
    while i < |files|
      invariant 0 <= i <= |files|
      invariant |ds| == i
      invariant forall k :: 0 <= k < i ==> ds[k].file == files[k]
      invariant forall k :: 0 <= k < i ==> (ds[k].Upload? <==> Acceptable(files[k], opts))
      invariant forall k :: 0 <= k < i ==> (ds[k].SizeError? <==> files[k].size > opts.maxFileSize)
      invariant Uploads(ds) == FilterAcceptable(files[..i], opts)
    {
      var d := Decide(files[i], opts);
      DecideAgrees(files[i], opts);
      UploadsAppend(ds, [d]);
      assert files[..i + 1] == files[..i] + [files[i]];
      FilterAcceptableAppend(files[..i], [files[i]], opts);
      ds := ds + [d];
      i := i + 1;
    }
    assert files[..i] == files;
  }

  /** The size limit is inclusive: a file of exactly the limit passes the size check. */
  lemma SizeLimitInclusive(f: File, opts: Options)
    requires f.size == opts.maxFileSize && !TypeCheckOn(opts)
    ensures Decide(f, opts) == Upload(f)
  {
  }

  /**
   * A wildcard entry for a base type without a slash accepts exactly the types
   * that start with that base: it is a plain prefix test, not a test of the
   * part before the type's slash.
   */
  lemma WildcardIsPlainPrefix(base: string, fileType: string)
    requires '/' !in base
    ensures EntryAccepts(base + "/*", fileType) <==> StartsWith(fileType, base)
  {
    var e := base + "/*";
    assert EndsWith(e, "/*") by { assert e[|e| - 2..] == "/*"; }
    assert OccursAt(e, "/*", |base|) by { assert e[|base|..|base| + 2] == "/*"; }
    forall k | 0 <= k < |base| ensures !OccursAt(e, "/*", k) {
      assert e[k] == base[k];
    }
    assert IndexOf(e, "/*") == |base|;
    assert e[..|base|] == base;
  }

  /** So the `image` wildcard also accepts `imagex/png`, but not `text/plain`. */
  lemma ImageWildcard()
    ensures EntryAccepts("image/*", "imagex/png")
    ensures !EntryAccepts("image/*", "text/plain")
  {
    var base := "image";
    assert base + "/*" == "image/*";
    WildcardIsPlainPrefix(base, "imagex/png");
    WildcardIsPlainPrefix(base, "text/plain");
    assert "imagex/png"[..5] == base;
    assert "text/plain"[..5] != base by {
      assert "text/plain"[0] != base[0];
    }
  }

  /**
   * Entries are not trimmed: in `"a, b"` the second entry is `" b"`, so a
   * file of type `b` is refused unless `a` itself accepts it.
   */
  lemma EntriesNotTrimmed(a: string, b: string)
    requires ',' !in a && ',' !in b && a != b
    requires !EndsWith(a, "/*") && !EndsWith(b, "/*")
    ensures !AcceptedBy(Split(a + ", " + b, ','), b)
  {
    var b' := " " + b;
    assert a + ", " + b == a + [','] + b';
    assert ',' !in b';
    SplitAtSeparator(a, b', ',');
    SplitWithoutSeparator(b', ',');
    if |b| >= 2 {
      assert b'[|b'| - 2..] == b[|b| - 2..];
    } else if |b| == 1 {
      assert b'[|b'| - 2..][0] == ' ';
    }
    assert !EntryAccepts(b', b) by { assert |b'| != |b|; }
  }

  /** A trailing comma adds an empty entry, which accepts files whose type the browser does not know. */
  lemma TrailingCommaAcceptsUntyped(a: string, f: File, max: nat)
    requires ',' !in a && f.mimeType == "" && f.size <= max
    ensures Decide(f, Options(max, Some(a + ","))) == Upload(f)
  {
    assert a + "," == a + [','] + "";
    SplitAtSeparator(a, "", ',');
    assert Split(a + ",", ',') == [a, ""];
    assert EntryAccepts("", f.mimeType);
  }
}
