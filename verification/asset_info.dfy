/** The asset-descriptor fixer (`FixAssetInfo`): three independent field corrections (the
    `type` tag, the `id` and the `explorer` URL), and one rewrite of the whole descriptor
    when at least one of them changed a value. */
module AssetInfoFix {
  import opened Common
  import opened Ascii

  /** The registry lookups the fixer consults, left uninterpreted. */
  datatype Registry = Registry(
    /** `types.GetChainFromAssetType(tag).ID`; the zero chain's id when the tag is not recognised. */
    chainFromAssetType: string -> nat,
    /** `types.GetTokenType(chainId, asset)`: None when the registry has no entry. */
    tokenType: (nat, string) -> Option<string>,
    /** `coin.GetCoinExploreURL(chain, asset)`: None when the pair is unsupported. */
    explorerUrl: (Chain, string) -> Option<string>)

  /** A field after correction and whether the correction changed it. */
  datatype Fixed<T> = Fixed(value: T, changed: bool)

  /** The tag the descriptor should carry: the registry's entry for the chain and asset, or
      else the upper-case form of the declared tag (an absent tag counts as ""). */
  function ExpectedTokenType(reg: Registry, f: AssetFile, declared: string): (t: string)
    // The registry's entry wins whenever there is one...
    ensures reg.tokenType(f.chain.id, f.asset).Some? ==> t == reg.tokenType(f.chain.id, f.asset).value
    // ...otherwise the fallback is an upper-case tag equal to the declared one up to case.
    ensures reg.tokenType(f.chain.id, f.asset).None? ==> Upper(t) == t && EqualFold(declared, t)
  {
    match reg.tokenType(f.chain.id, f.asset)
    case Some(t) => t
    case None =>
      UpperIdempotent(declared);
      EqualFoldUpper(declared);
      Upper(declared)
  }

  /** The type rule fires: the declared tag resolves to another chain, or it does not match
      the expected tag up to case. */
  predicate TypeNeedsFix(reg: Registry, f: AssetFile, typ: Option<string>) {
    var declared := typ.GetOr("");
    reg.chainFromAssetType(declared) != f.chain.id
      || !EqualFold(declared, ExpectedTokenType(reg, f, declared))
  }

  /** The explorer rule fires: the URL is absent or differs from the expected one beyond case. */
  predicate ExplorerNeedsFix(expected: string, explorer: Option<string>) {
    explorer.None? || !EqualFold(expected, explorer.value)
  }

  function FixAssetType(reg: Registry, f: AssetFile, typ: Option<string>): (r: Fixed<Option<string>>)
    ensures r.changed <==> TypeNeedsFix(reg, f, typ)
    ensures r.changed ==> r.value == Some(ExpectedTokenType(reg, f, typ.GetOr("")))
    ensures !r.changed ==> r.value == typ
    // Afterwards the tag matches the expected tag up to case...
    ensures EqualFold(r.value.GetOr(""), ExpectedTokenType(reg, f, typ.GetOr("")))
    // ...and without a registry entry the fallback only changes the tag's case, or turns an
    // absent tag into the empty tag.
    ensures reg.tokenType(f.chain.id, f.asset).None? ==>
              Upper(r.value.GetOr("")) == Upper(typ.GetOr(""))
  {
    var declared := typ.GetOr("");
    var expected := ExpectedTokenType(reg, f, declared);
    if reg.chainFromAssetType(declared) != f.chain.id || !EqualFold(declared, expected) then
      EqualFoldReflexive(expected);
      UpperIdempotent(declared);
      Fixed(Some(expected), true)
    else
      Fixed(typ, false)
  }

  function FixAssetId(f: AssetFile, id: Option<string>): (r: Fixed<Option<string>>)
    ensures r.value == Some(f.asset)
    ensures r.changed <==> id != Some(f.asset)
  {
    if id.None? || id.value != f.asset then Fixed(Some(f.asset), true) else Fixed(id, false)
  }

  function FixExplorer(expected: string, explorer: Option<string>): (r: Fixed<Option<string>>)
    ensures r.changed <==> ExplorerNeedsFix(expected, explorer)
    ensures r.changed ==> r.value == Some(expected)
    ensures !r.changed ==> r.value == explorer
    ensures r.value.Some? && EqualFold(r.value.value, expected)
  {
    if explorer.None? || !EqualFold(expected, explorer.value) then
      EqualFoldReflexive(expected);
      Fixed(Some(expected), true)
    else
      EqualFoldSymmetric(expected, explorer.value);
      Fixed(explorer, false)
  }

  /** `FixAssetInfo`. `read` is the outcome of reading and parsing the descriptor. On
      success the result is the document to write, or None when no write is needed. */
  function FixAssetInfo(reg: Registry, f: AssetFile, read: Result<AssetInfo>): (r: Result<Option<AssetInfo>>)
    ensures read.Err? ==> r == Err(read.error)
    // An unsupported explorer URL is a hard error with no write, whatever else was fixed.
    ensures read.Ok? && reg.explorerUrl(f.chain, f.asset).None? ==>
              r == Err(ExplorerUrlUnavailable(f.chain.id, f.asset))
    ensures r.Ok? <==> read.Ok? && reg.explorerUrl(f.chain, f.asset).Some?
    // The descriptor is rewritten exactly when one of the three rules fires.
    ensures r.Ok? ==>
              (r.value.Some? <==>
                 TypeNeedsFix(reg, f, read.value.typ)
                 || read.value.id != Some(f.asset)
                 || ExplorerNeedsFix(reg.explorerUrl(f.chain, f.asset).value, read.value.explorer))
    // The rewritten descriptor takes the expected value in each field whose rule fired,
    // keeps every other field as it was, and so matches the expected values up to case.
    ensures r.Ok? && r.value.Some? ==>
              var doc := read.value;
              var url := reg.explorerUrl(f.chain, f.asset).value;
              var out := r.value.value;
              && out == doc.(typ := if TypeNeedsFix(reg, f, doc.typ)
                                    then Some(ExpectedTokenType(reg, f, doc.typ.GetOr("")))
                                    else doc.typ,
                             id := Some(f.asset),
                             explorer := if ExplorerNeedsFix(url, doc.explorer) then Some(url)
                                         else doc.explorer)
              && out.explorer.Some?
              && EqualFold(out.explorer.value, url)
              && EqualFold(out.typ.GetOr(""), ExpectedTokenType(reg, f, doc.typ.GetOr("")))
  {
    match read
    case Err(e) => Err(e)
    case Ok(doc) =>
      var t := FixAssetType(reg, f, doc.typ);
      var i := FixAssetId(f, doc.id);
      match reg.explorerUrl(f.chain, f.asset)
      case None => Err(ExplorerUrlUnavailable(f.chain.id, f.asset))
      case Some(url) =>
        var e := FixExplorer(url, doc.explorer);
        if t.changed || i.changed || e.changed then
          Ok(Some(doc.(typ := t.value, id := i.value, explorer := e.value)))
        else
          Ok(None)
  }

  /** The expected tag does not move between runs: the registry entry is the same, and the
      upper-case fallback is idempotent. */
  lemma ExpectedTypeStable(reg: Registry, f: AssetFile, typ: Option<string>)
    ensures var t := FixAssetType(reg, f, typ).value.GetOr("");
            ExpectedTokenType(reg, f, t) == ExpectedTokenType(reg, f, typ.GetOr(""))
  {
    var declared := typ.GetOr("");
    var t := FixAssetType(reg, f, typ).value.GetOr("");
    if reg.tokenType(f.chain.id, f.asset).None? {
      UpperIdempotent(declared);
    }
  }

  /** A second run over the descriptor the first run left on disk succeeds and changes no
      value. It writes again only when the registry resolves the corrected tag to another
      chain, and then it rewrites the same document. */
  lemma {:induction false} AssetInfoIdempotent(reg: Registry, f: AssetFile, doc: AssetInfo)
    requires FixAssetInfo(reg, f, Ok(doc)).Ok?
    ensures var after := AfterWrite(doc, FixAssetInfo(reg, f, Ok(doc)).value);
            var second := FixAssetInfo(reg, f, Ok(after));
            && second.Ok?
            && AfterWrite(after, second.value) == after
            && (second.value.None? <==> reg.chainFromAssetType(after.typ.GetOr("")) == f.chain.id)
  {
    var url := reg.explorerUrl(f.chain, f.asset).value;
    var after := AfterWrite(doc, FixAssetInfo(reg, f, Ok(doc)).value);
    var t := FixAssetType(reg, f, doc.typ);
    assert after.typ == t.value;
    ExpectedTypeStable(reg, f, doc.typ);
    var t2 := FixAssetType(reg, f, after.typ);
    assert !ExplorerNeedsFix(url, after.explorer) by {
      EqualFoldSymmetric(url, after.explorer.value);
    }
    if t2.changed {
      assert t2.value == Some(ExpectedTokenType(reg, f, after.typ.GetOr("")));
      if reg.tokenType(f.chain.id, f.asset).None? {
        UpperIdempotent(doc.typ.GetOr(""));
      }
      assert t2.value == after.typ;
    }
  }

  /** Without a registry entry, an absent tag whose empty form resolves to another chain is
      written as the empty tag, and every later run writes the same document again. */
  lemma AbsentTagBecomesEmpty(reg: Registry, f: AssetFile, doc: AssetInfo)
    requires doc.typ.None?
    requires reg.tokenType(f.chain.id, f.asset).None?
    requires reg.chainFromAssetType("") != f.chain.id
    requires reg.explorerUrl(f.chain, f.asset).Some?
    ensures var r := FixAssetInfo(reg, f, Ok(doc));
            && r.Ok? && r.value.Some? && r.value.value.typ == Some("")
            && FixAssetInfo(reg, f, Ok(r.value.value)) == Ok(Some(r.value.value))
  {
    assert Upper("") == "";
  }
}
