/** The directory-name fixer for EVM assets (`FixETHAddressChecksum`): an asset directory
    whose name is not the EIP-55 mixed-case form of its address is renamed to that form. */
module ChecksumFix {
  import opened Common

  /** The library services the fixer consults, left uninterpreted. */
  datatype Services = Services(
    /** `coin.IsEVM` on a chain id. */
    isEvm: nat -> bool,
    /** Whether `validation.ValidateETHForkAddress` accepts a directory name on a chain. */
    isValidAddress: (Chain, string) -> bool,
    /** `address.EIP55Checksum`: the checksum form of a name, None when it cannot be computed. */
    checksum: string -> Option<string>,
    /** `path.GetAssetPath(handle, name)`. */
    assetPath: (string, string) -> string,
    /** `filepath.Base`. */
    baseName: string -> string,
    /** Whether `os.Rename(from, to)` succeeds. */
    renameSucceeds: (string, string) -> bool)

  /** A directory rename that the fixer performed. */
  datatype Rename = Rename(from: string, to: string)

  /** A successful run: the entity as the caller must see it afterwards (its path is the
      new one after a rename), and the rename performed, if any. */
  datatype Outcome = Outcome(file: AssetFile, renamed: Option<Rename>)

  /** The fixer has something to correct: an EVM chain whose directory name does not validate. */
  predicate NeedsRename(svc: Services, f: AssetFile) {
    svc.isEvm(f.chain.id) && !svc.isValidAddress(f.chain, svc.baseName(f.path))
  }

  function FixEthAddressChecksum(svc: Services, f: AssetFile): (r: Result<Outcome>)
    // Non-EVM chains and names that already validate: success, nothing renamed.
    ensures !NeedsRename(svc, f) ==> r == Ok(Outcome(f, None))
    // A checksum that cannot be computed is a hard error, with no rename.
    ensures NeedsRename(svc, f) && svc.checksum(svc.baseName(f.path)).None? ==>
              r == Err(ChecksumUnavailable(svc.baseName(f.path)))
    // A rename that fails is its own hard error, naming both paths.
    ensures NeedsRename(svc, f) && svc.checksum(svc.baseName(f.path)).Some? && r.Err? ==>
              r == Err(RenameFailed(f.path, svc.assetPath(f.chain.handle, svc.checksum(svc.baseName(f.path)).value)))
    // Errors happen only when a rename is needed and cannot be done.
    ensures r.Err? <==>
              NeedsRename(svc, f) &&
              (svc.checksum(svc.baseName(f.path)).None? ||
               !svc.renameSucceeds(f.path, svc.assetPath(f.chain.handle, svc.checksum(svc.baseName(f.path)).value)))
    // A rename moves the directory to the chain's asset path for the checksum name, and the
    // entity's path follows it; chain and asset id never change.
    ensures r.Ok? ==> r.value.file.chain == f.chain && r.value.file.asset == f.asset
    ensures r.Ok? ==> (r.value.renamed.Some? <==> NeedsRename(svc, f))
    ensures r.Ok? && r.value.renamed.None? ==> r.value.file == f
    ensures r.Ok? && r.value.renamed.Some? ==>
              && svc.checksum(svc.baseName(f.path)).Some?
              && var target := svc.assetPath(f.chain.handle, svc.checksum(svc.baseName(f.path)).value);
              && r.value.renamed.value == Rename(f.path, target)
              && r.value.file.path == target
  {
    if !svc.isEvm(f.chain.id) then
      Ok(Outcome(f, None))
    else
      var assetDir := svc.baseName(f.path);
      if svc.isValidAddress(f.chain, assetDir) then
        Ok(Outcome(f, None))
      else
        match svc.checksum(assetDir)
        case None => Err(ChecksumUnavailable(assetDir))
        case Some(sum) =>
          var newName := svc.assetPath(f.chain.handle, sum);
          if !svc.renameSucceeds(f.path, newName) then
            Err(RenameFailed(f.path, newName))
          else
            Ok(Outcome(f.(path := newName), Some(Rename(f.path, newName))))
  }

  /** What the libraries promise each other: the base name of an asset path is the name it
      was built from, and a checksum form validates on every chain. */
  ghost predicate Coherent(svc: Services) {
    && (forall handle, name :: svc.baseName(svc.assetPath(handle, name)) == name)
    && (forall c: Chain, name :: svc.checksum(name).Some? ==> svc.isValidAddress(c, svc.checksum(name).value))
  }

  /** With coherent libraries, a second run on the entity the first run handed back renames
      nothing and leaves the entity as it is. */
  lemma ChecksumIdempotent(svc: Services, f: AssetFile)
    requires Coherent(svc)
    requires FixEthAddressChecksum(svc, f).Ok?
    ensures var g := FixEthAddressChecksum(svc, f).value.file;
            FixEthAddressChecksum(svc, g) == Ok(Outcome(g, None))
  {
    var out := FixEthAddressChecksum(svc, f).value;
    if out.renamed.Some? {
      var sum := svc.checksum(svc.baseName(f.path)).value;
      assert out.file.path == svc.assetPath(f.chain.handle, sum);
      assert svc.baseName(out.file.path) == sum;
      assert svc.isValidAddress(out.file.chain, sum);
    }
  }
}
