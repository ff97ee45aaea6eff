# Asset-registry fixers, modelled in Dafny

This project models the decision logic of the asset registry's fixers
(`internal/processor/fixers.go`). Each fixer reads some on-disk state for one asset
entity, computes a canonical value, and writes only when that value differs:

- `FixETHAddressChecksum` renames an EVM asset directory to the EIP-55 checksum form of
  its address.
- `FixLogo` rescales a logo that exceeds a size limit. `calculateTargetDimension` computes the
  target size. With MaxW <= MaxH every such rescale is a shrink; see "## Left out".
- `FixChainInfoJSON` forces a chain descriptor's `type` tag to the native-coin constant.
- `FixAssetInfo` corrects an asset descriptor's `type`, `id` and `explorer` fields.
- `FixTokenList` drops token-list entries whose descriptor is not active.

Every library the fixers call is a parameter of the model:

- chain registry lookups
- the checksum algorithm
- path builders
- filesystem reads and renames
- PNG probing and resizing

These parameters are function-typed fields of the `Services`, `Registry` and `Sources`
datatypes, or plain input values. The outcome of reading a JSON document is one such
input value. Each fixer is a pure function, or a method with a loop, that returns a
`Result`. `Err(e)` is the hard error the fixer returns, and then nothing is written, renamed
or resized. On success:

- The three document fixers (chain descriptor, asset descriptor, token list) return
  `Ok(None)` when no write is needed, or `Ok(Some(doc))` with the document to write.
- The logo fixer returns `Ok(Keep)`, or `Ok(Resize(target))` with the size to resize to.
- The checksum fixer returns an `Outcome`: the entity with its possibly new path, plus the
  rename it performed, if any. The caller must rebind the entity after a rename.

Modules:

- `Common` (common.dfy) holds `Option`, `Result`, the errors, the entity and the descriptors.
  Descriptors keep the typed-model fields that no fixer reads in an `other` component, which
  the fixers carry through unchanged.
- `Ascii` (ascii.dfy) models `strings.ToUpper` and `strings.EqualFold` over ASCII.
- `ChecksumFix`, `LogoFix`, `ChainInfoFix`, `AssetInfoFix` and `TokenListFix` hold one
  fixer each.

Three behaviours of the code are worth knowing:

- `FixAssetInfo` does not always stay quiet on a second run. The second run never changes
  a value, but it rewrites the same document again whenever the registry resolves the
  corrected tag to a chain other than the entity's. An unrecognised tag resolves to the
  zero chain, so this includes tags the registry does not know
  (`AssetInfoFix.AssetInfoIdempotent`).
- `FixAssetInfo` can leave an absent `type` absent. This happens when the chain id is 0 (the
  id of the zero chain) and the registry has no token type for the asset. The empty tag
  then resolves to the entity's own chain, and the fallback upper-cases `""` to `""`.
- On any other chain, with no registry token type, an absent `type` is written as the empty
  tag `""`. The empty tag resolves to the zero chain, so every later run writes the same
  document again (`AssetInfoFix.AbsentTagBecomesEmpty`).

## Model

| member | source | states |
|---|---|---|
| ChecksumFix.FixEthAddressChecksum | internal/processor/fixers.go:28-56 | Non-EVM chains and names that already validate give success with no rename and the entity unchanged. If a name fails validation and its checksum cannot be computed, or the rename fails, the result is an error and no rename. Otherwise the directory moves to the chain's asset path for the checksum name, and the entity's path becomes that path while its chain and asset id stay the same. |
| ChecksumFix.ChecksumIdempotent | internal/processor/fixers.go:35-53 | If base names and checksums agree with the path builder and the validator, a second run on the entity the first run handed back renames nothing. |
| LogoFix.TargetDimension | internal/processor/fixers.go:88-103 | The longer edge (width on a tie) maps to exactly maxW. Neither edge exceeds maxW. Each edge is the floor of its exactly scaled length `side * maxW / longer edge`. |
| LogoFix.TargetShrinks | internal/processor/fixers.go:65-72 | When the longer edge exceeds maxW, neither edge grows. When MaxW <= MaxH, every logo the fixer resizes (width > MaxW or height > MaxH) meets this condition, and with MaxW == MaxH the two conditions coincide. |
| LogoFix.AspectRatioKept | internal/processor/fixers.go:97-100 | One ratio scales both edges, so the cross products `targetW*h` and `targetH*w` differ by less than the longer edge. This is the truncation error only. |
| LogoFix.TargetDimensionExample | internal/processor/fixers.go:88-103 | 4000 x 2000 under a limit of 512 becomes 512 x 256. |
| LogoFix.FixLogo | internal/processor/fixers.go:58-86 | A failed probe is an error. A resize is requested iff width > MaxW or height > MaxH. Its target is exactly the calculated target size, so its longer edge is MaxW. The only other error is a needed resize that fails. |
| LogoFix.FixLogoEnlargesWhenLimitsDiffer | internal/processor/fixers.go:65-74 | The target size uses only MaxW. So with MaxW = 512 and MaxH = 256, a 300 x 300 logo is resized up to 512 x 512, and a 512 x 300 logo is "resized" to its own size. |
| LogoFix.FileSizeIgnored | internal/processor/fixers.go:80-85 | The outcome of the file-size check never changes the fixer's result, so an oversized file is not an error. |
| LogoFix.LogoIdempotent | internal/processor/fixers.go:64-78 | When MaxW <= MaxH, a second run over the logo the first run left resizes nothing. |
| ChainInfoFix.FixChainInfoJson | internal/processor/fixers.go:105-121 | A read failure is passed on. The descriptor is rewritten iff `type` is absent or differs from the coin tag. The rewritten document carries the coin tag and its other fields unchanged. |
| ChainInfoFix.ChainInfoIdempotent | internal/processor/fixers.go:113-120 | After a run the descriptor on disk has the coin tag and its other fields unchanged, and a second run writes nothing. |
| AssetInfoFix.ExpectedTokenType | internal/processor/fixers.go:134-145 | The expected tag is the registry's entry when there is one. Otherwise it is an upper-case tag equal, up to case, to the declared tag ("" when absent). |
| AssetInfoFix.FixAssetType | internal/processor/fixers.go:133-150 | The tag is replaced iff its resolved chain differs from the entity's or it is not case-insensitively equal to the expected tag. A replaced tag becomes exactly the expected tag, and an unreplaced one stays as it was. Without a registry entry, only the tag's case can change, or an absent tag becomes the empty tag `""`. |
| AssetInfoFix.FixAssetId | internal/processor/fixers.go:152-157 | The id becomes the asset id. It counts as changed iff it was absent or not exactly equal. |
| AssetInfoFix.FixExplorer | internal/processor/fixers.go:164-168 | The URL is replaced iff it was absent or not case-insensitively equal to the expected URL. A replaced URL becomes exactly the expected URL, and an unreplaced one stays as it was. Either way it is present and case-insensitively equal to the expected URL. |
| AssetInfoFix.FixAssetInfo | internal/processor/fixers.go:123-175 | A read failure is passed on. An unsupported explorer URL is an error with no write, even when other fields were fixed in memory. The document is written iff at least one of the three rules fires. The written document is the read document with exactly these changes: the asset id; the expected tag if the type rule fired; the expected URL if the explorer rule fired. Status and all other fields stay as they were. |
| AssetInfoFix.AbsentTagBecomesEmpty | internal/processor/fixers.go:134-148 | With no registry entry, an absent tag whose empty form resolves to another chain is written as `""`, and the next run writes the same document again. |
| AssetInfoFix.ExpectedTypeStable | internal/processor/fixers.go:139-145 | The expected tag computed from the corrected tag equals the one computed from the original tag, because upper-casing is idempotent. |
| AssetInfoFix.AssetInfoIdempotent | internal/processor/fixers.go:131-174 | A second run succeeds and changes no field value. It writes nothing iff the registry resolves the corrected tag to the entity's chain. |
| TokenListFix.ActivityIgnoresOtherFields | internal/processor/fixers.go:199-225 | Whether an entry is kept, or its lookup fails, depends only on whether it is a coin entry and, for a token, on its address. Its other fields play no part. |
| TokenListFix.Filter | internal/processor/fixers.go:195-231 | The reference filter keeps at most as many entries as the list has, and every kept entry's descriptor reads with the active status. |
| TokenListFix.FixTokenList | internal/processor/fixers.go:177-238 | A list read failure is passed on. Any descriptor read failure aborts with the first such error and no write. Otherwise the entries kept by the reference filter are written iff at least one entry was dropped. |
| TokenListFix.FilterFailsIffUnreadable | internal/processor/fixers.go:207-223 | The filter fails iff some entry's descriptor cannot be opened, read or parsed. |
| TokenListFix.FilterKeepsOrder | internal/processor/fixers.go:195-231 | The kept entries form an order-preserving subsequence of the list. |
| TokenListFix.FilterKeepsExactlyActive | internal/processor/fixers.go:225-230 | An entry is kept iff it is in the list and its descriptor's status equals the active status. Every occurrence of an active entry is kept: each entry occurs in the kept list as often as in the list if active, and not at all otherwise. |
| TokenListFix.FilterIdempotent | internal/processor/fixers.go:225-233 | A list whose entries are all active is kept whole. |
| TokenListFix.TokenListIdempotent | internal/processor/fixers.go:195-237 | Filtering the kept entries again keeps them all, so a second run drops nothing and writes nothing. |
| TokenListFix.TokenListExample | internal/processor/fixers.go:195-231 | Entries A (active), B (inactive) and C (active) filter to A, C. |
| Ascii.Upper | internal/processor/fixers.go:144 | Upper-casing keeps the length, maps each character independently and leaves no lower-case letter. |
| Ascii.UpperIdempotent | internal/processor/fixers.go:144 | Upper-casing twice equals upper-casing once. |
| Ascii.EqualFold | internal/processor/fixers.go:147 | `strings.EqualFold` over ASCII, defined position by position. It holds iff the upper-cased strings are equal. |
| Ascii.EqualFoldSymmetric | internal/processor/fixers.go:165 | Case-insensitive equality is symmetric, so the argument order at the call site does not matter. |

## Left out

- `FixJSON` is a one-line call into a JSON formatter that is not part of this model.
- File I/O is not modelled. This covers `os.Open`, reading, JSON parsing, `os.Rename`, and
  PNG probing and resizing. Each appears only as its outcome: a `Result`, an `Option` or a
  success flag.
- Write failures are not modelled. The source passes on any error from `CreateJSONFile` and
  `createTokenListJSON`. Here the document to write is the fixer's result, and performing
  the write is left to the caller.
- JSON byte-for-byte layout and pretty-printing are not modelled. The descriptors are
  decoded into the typed models `info.CoinModel` and `info.AssetModel` and written back from
  them. `other` stands for the fields those models declare that no fixer reads, and the
  fixers carry it through unchanged. A JSON key the models do not declare is not kept by
  that round trip, and the model does not represent such keys.
- The other top-level fields of a token list are not modelled. `createTokenListJSON` rebuilds
  the file from the chain and the kept entries, and its source is not part of this model,
  so the write is the kept entries only.
- The EIP-55 checksum (Keccak-256) is not modelled. The same goes for
  `ValidateETHForkAddress`, `IsEVM`, `GetTokenType`, `GetChainFromAssetType`,
  `GetCoinExploreURL` and the path builders. All of them are uninterpreted parameters.
- `UpdateFile` is modelled as setting the entity's path to the chain's asset path for the
  checksum name. Its source is not part of this model.
- `GetStatus` is modelled as returning the status field, or "" when it is absent. Its
  source is not part of this model.
- `ValidateLogoFileSize` is not modelled. Its result is an input that the logo fixer ignores,
  as the source does.
- The hidden constants are parameters: `MaxW`, `MaxH`, the native-coin tag and the active
  status.
- Logging and the `Service`/`fileService` plumbing are not modelled.
- LogoFix.TargetDimension: uses exact integer arithmetic with floor instead of the source's
  `float32` ratio. The two differ for ordinary sizes, not only very large ones. With
  MaxW = 512, the single-precision ratio 512/564 is 0.90780139. Times 564 this rounds to
  511.99997, so the source resizes 564 x 282 to 511 x 255, where this model gives 512 x 256.
  Between 513 and 4096, 494 longer edges behave this way, starting with 564, 567, 586 and
  614. So "the longer edge becomes MaxW" is a property of the exact arithmetic, not of the
  `float32` code.
- LogoFix.FixLogo: keeps MaxW and MaxH separate, as the source does. With MaxH < MaxW, a
  requested resize need not be a shrink. A logo too tall for MaxH but within MaxW is
  scaled so that its longer edge becomes MaxW. That enlarges it unless that edge is already
  MaxW, and then it is resized to its own size (`LogoFix.FixLogoEnlargesWhenLimitsDiffer`).
- LogoFix.LogoIdempotent: is stated only for MaxW <= MaxH. With MaxH < MaxW, a target whose
  height lies between MaxH and MaxW would be resized again.
- ChecksumFix.ChecksumIdempotent: holds only if the libraries are coherent. The base name of
  an asset path must be the name it was built from, and a checksum form must validate.
- Ascii.Upper: covers ASCII only. Go's Unicode case mapping and folding are not modelled.
