/** Shared vocabulary of the fixers: optional values, error results, the asset entity a
    fixer operates on, and the JSON descriptors it reads and rewrites. */
module Common {

  /** A JSON field that may be absent (a nil pointer in the source's models). */
  datatype Option<+T> = None | Some(value: T) {
    /** The value, or `default` when the field is absent. */
    function GetOr(default: T): T {
      match this
      case Some(v) => v
      case None => default
    }
  }

  /** Why a fixer gave up. Every one of these is a hard error: the fixer writes nothing. */
  datatype FixError =
    | ChecksumUnavailable(name: string)
    | RenameFailed(from: string, to: string)
    | ImageProbeFailed(path: string)
    | ResizeFailed(path: string)
    /** Opening, reading or parsing the JSON document at `path` failed. The fixers never
        build this error themselves: it arrives in the read outcomes they are given. */
    | ReadFailed(path: string)
    | ExplorerUrlUnavailable(chainId: nat, asset: string)

  /** The outcome of a fixer (or of a read it depends on). */
  datatype Result<+T> = Ok(value: T) | Err(error: FixError)

  /** A supported blockchain: its numeric coin id and its short handle ("ethereum"). */
  datatype Chain = Chain(id: nat, handle: string)

  /** The addressed item a fixer works on: a chain, an asset identifier (a native coin or a
      contract address) and the path of its backing file or directory. */
  datatype AssetFile = AssetFile(chain: Chain, asset: string, path: string)

  /** The document on disk after a successful fixer run that wrote `written`, if anything. */
  function AfterWrite<D>(doc: D, written: Option<D>): D {
    written.GetOr(doc)
  }

  /** The fields of a descriptor's typed model that no fixer reads; the fixers carry them
      through unchanged. Keys the typed model does not declare are not represented. */
  type Fields = seq<(string, string)>

  /** A chain descriptor (`info.json` of a chain): its `type` tag plus everything else. */
  datatype ChainInfo = ChainInfo(typ: Option<string>, other: Fields)

  /** An asset descriptor (`info.json` of an asset). */
  datatype AssetInfo = AssetInfo(
    typ: Option<string>,
    id: Option<string>,
    explorer: Option<string>,
    status: Option<string>,
    other: Fields)
  {
    /** The status string of the descriptor, empty when the field is absent. */
    function Status(): string {
      status.GetOr("")
    }
  }
}
