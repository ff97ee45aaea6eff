/** The chain-descriptor fixer (`FixChainInfoJSON`): a chain's `type` tag must be the
    native-coin constant. */
module ChainInfoFix {
  import opened Common

  /** The descriptor is already correct. */
  predicate HasCoinType(doc: ChainInfo, coinType: string) {
    doc.typ == Some(coinType)
  }

  /** `FixChainInfoJSON`. `read` is the outcome of reading and parsing the descriptor and
      `coinType` is the registry's native-coin tag. On success the result is the document to
      write, or None when no write is needed. */
  function FixChainInfoJson(read: Result<ChainInfo>, coinType: string): (r: Result<Option<ChainInfo>>)
    // A read or parse failure is passed on unchanged.
    ensures read.Err? ==> r == Err(read.error)
    ensures read.Ok? ==> r.Ok?
    // The file is rewritten exactly when the tag is absent or different.
    ensures r.Ok? ==> (r.value.Some? <==> !HasCoinType(read.value, coinType))
    // The rewritten document carries the coin tag and every other field unchanged.
    ensures r.Ok? && r.value.Some? ==>
              HasCoinType(r.value.value, coinType) && r.value.value.other == read.value.other
  {
    match read
    case Err(e) => Err(e)
    case Ok(doc) =>
      if doc.typ.None? || doc.typ.value != coinType then
        Ok(Some(doc.(typ := Some(coinType))))
      else
        Ok(None)
  }

  /** After a successful run the descriptor on disk has the coin tag, and a second run
      writes nothing. */
  lemma ChainInfoIdempotent(doc: ChainInfo, coinType: string)
    ensures var after := AfterWrite(doc, FixChainInfoJson(Ok(doc), coinType).value);
            && HasCoinType(after, coinType)
            && after.other == doc.other
            && FixChainInfoJson(Ok(after), coinType) == Ok(None)
  {
  }
}
