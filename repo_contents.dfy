/**
 * An entry of a repository's directory listing, as the contents API returns
 * it, and the decoding of its `type` field.
 */
module RepoContents {
  import opened Wrappers

  /** `RepoContentType`; `Unknown` stands for every type the app does not know. */
  datatype RepoContentType = File | Dir | Symlink | Submodule | Unknown

  /** The raw string each case is written as. */
  function RawValue(t: RepoContentType): (raw: string)
    ensures raw != []
  {
    match t
    case File => "file"
    case Dir => "dir"
    case Symlink => "symlink"
    case Submodule => "submodule"
    case Unknown => "unknown"
  }

  /** `RepoContentType(rawValue:)`: the case written as `raw`, if any. */
  function FromRawValue(raw: string): Option<RepoContentType> {
    if raw == "file" then Some(File)
    else if raw == "dir" then Some(Dir)
    else if raw == "symlink" then Some(Symlink)
    else if raw == "submodule" then Some(Submodule)
    else if raw == "unknown" then Some(Unknown)
    else None
  }

  /** The JSON value the decoder finds for the field: a string, or something else. */
  datatype SingleValue = StringValue(text: string) | OtherValue

  /** A decoding error: the value is not a string. */
  datatype DecodeResult = Decoded(value: RepoContentType) | TypeMismatch

  /** `init(from:)`: a string decodes to its case, or to `Unknown` when it names none. */
  function Decode(value: SingleValue): (r: DecodeResult)
    ensures r.TypeMismatch? <==> value.OtherValue?
  {
    match value
    case OtherValue => TypeMismatch
    case StringValue(raw) =>
      match FromRawValue(raw)
      case Some(t) => Decoded(t)
      case None => Decoded(Unknown)
  }

  /** Every case reads back from its raw string, and only from it. */
  lemma RawValueRoundTrip(t: RepoContentType, raw: string)
    ensures FromRawValue(RawValue(t)) == Some(t)
    ensures FromRawValue(raw) == Some(t) <==> raw == RawValue(t)
  {
  }

  /**
   * Decoding a string never fails: a known raw string gives its case, any
   * other string gives `Unknown`.
   */
  lemma DecodeString(raw: string)
    ensures Decode(StringValue(raw)).Decoded?
    ensures forall t :: raw == RawValue(t) ==> Decode(StringValue(raw)) == Decoded(t)
    ensures (forall t :: raw != RawValue(t)) ==> Decode(StringValue(raw)) == Decoded(Unknown)
  {
    forall t | raw == RawValue(t)
      ensures Decode(StringValue(raw)) == Decoded(t)
    {
      RawValueRoundTrip(t, raw);
    }
    if FromRawValue(raw).Some? {
      RawValueRoundTrip(FromRawValue(raw).value, raw);
    }
  }

  /** `RepoContentItem`, reduced to the fields the model reads. */
  datatype RepoContentItem = RepoContentItem(name: string, path: string, contentType: RepoContentType, size: Option<int>)

  /** `id`: an entry is identified by its path. */
  function Id(item: RepoContentItem): string {
    item.path
  }

  /** Two entries share an identity exactly when they share a path. */
  lemma IdIsPath(a: RepoContentItem, b: RepoContentItem)
    ensures Id(a) == Id(b) <==> a.path == b.path
  {
  }

  /** `isDirectory`. */
  predicate IsDirectory(item: RepoContentItem) {
    item.contentType == Dir
  }

  /** An entry is a directory exactly when its `type` field decoded as "dir". */
  lemma IsDirectoryOfDecoded(item: RepoContentItem, value: SingleValue)
    requires Decode(value) == Decoded(item.contentType)
    ensures IsDirectory(item) <==> value == StringValue("dir")
  {
    if IsDirectory(item) {
      assert value.StringValue?;
      RawValueRoundTrip(Dir, value.text);
    }
  }
}
