/** The token-list fixer (`FixTokenList`): a chain's token list keeps, in order, only the
    entries whose descriptor has the active status, and is rewritten only when an entry was
    dropped. */
module TokenListFix {
  import opened Common

  /** One entry of a token list: its type (`coin` for the chain's native coin) and, for a
      token, its contract address. */
  datatype TokenItem = TokenItem(typ: string, address: string, other: Fields)

  /** A token list document, as far as the fixer reads it: the rewrite is rebuilt from the
      chain and the kept entries alone. */
  datatype TokenList = TokenList(tokens: seq<TokenItem>)

  /** What the fixer reads, left uninterpreted: the path builders, and the outcome of
      opening, reading and parsing the descriptor at a path. */
  datatype Sources = Sources(
    /** `path.GetChainInfoPath(handle)`. */
    chainInfoPath: string -> string,
    /** `path.GetAssetInfoPath(handle, address)`. */
    assetInfoPath: (string, string) -> string,
    /** Opening, reading and parsing the descriptor at a path. */
    readInfo: string -> Result<AssetInfo>)

  /** The descriptor an entry refers to: the chain's own descriptor for the native coin,
      otherwise the descriptor of the asset at the entry's address. */
  function DescriptorPath(src: Sources, f: AssetFile, coinType: string, t: TokenItem): string {
    if t.typ == coinType then src.chainInfoPath(f.chain.handle)
    else src.assetInfoPath(f.chain.handle, t.address)
  }

  /** The entry's descriptor can be read and parsed. */
  predicate Readable(src: Sources, f: AssetFile, coinType: string, t: TokenItem) {
    src.readInfo(DescriptorPath(src, f, coinType, t)).Ok?
  }

  /** The entry's descriptor can be read and has the active status. */
  predicate IsActive(src: Sources, f: AssetFile, coinType: string, active: string, t: TokenItem) {
    var info := src.readInfo(DescriptorPath(src, f, coinType, t));
    info.Ok? && info.value.Status() == active
  }

  /** Whether an entry is kept depends only on whether it is a coin entry and, for a token,
      on its address; the entry's other fields play no part. */
  lemma ActivityIgnoresOtherFields(src: Sources, f: AssetFile, coinType: string, active: string,
                                   t: TokenItem, u: TokenItem)
    requires (t.typ == coinType) == (u.typ == coinType)
    requires t.typ != coinType ==> t.address == u.address
    ensures IsActive(src, f, coinType, active, t) == IsActive(src, f, coinType, active, u)
    ensures Readable(src, f, coinType, t) == Readable(src, f, coinType, u)
  {
    assert DescriptorPath(src, f, coinType, t) == DescriptorPath(src, f, coinType, u);
  }

  /** Reference definition of the filter: the entries kept, in order, or the first lookup
      error in list order. */
  function Filter(src: Sources, f: AssetFile, coinType: string, active: string,
                  tokens: seq<TokenItem>): (r: Result<seq<TokenItem>>)
    ensures r.Ok? ==> |r.value| <= |tokens|
    ensures r.Ok? ==> forall i :: 0 <= i < |r.value| ==> IsActive(src, f, coinType, active, r.value[i])
  {
    if |tokens| == 0 then Ok([])
    else
      var last := tokens[|tokens| - 1];
      match Filter(src, f, coinType, active, tokens[..|tokens| - 1])
      case Err(e) => Err(e)
      case Ok(kept) =>
        match src.readInfo(DescriptorPath(src, f, coinType, last))
        case Err(e) => Err(e)
        case Ok(info) => Ok(if info.Status() == active then kept + [last] else kept)
  }

  /** `a` is `b` with some entries removed and the rest in their original order. */
  predicate IsSubsequence(a: seq<TokenItem>, b: seq<TokenItem>)
    decreases |b|
  {
    if |a| == 0 then true
    else if |b| == 0 then false
    else if a[|a| - 1] == b[|b| - 1] then IsSubsequence(a[..|a| - 1], b[..|b| - 1])
    else IsSubsequence(a, b[..|b| - 1])
  }

  /** The filter fails exactly when some entry's descriptor cannot be read. */
  lemma {:induction false} FilterFailsIffUnreadable(src: Sources, f: AssetFile, coinType: string,
                                                    active: string, tokens: seq<TokenItem>)
    ensures Filter(src, f, coinType, active, tokens).Ok? <==>
              forall i :: 0 <= i < |tokens| ==> Readable(src, f, coinType, tokens[i])
  {
    if |tokens| > 0 {
      var init := tokens[..|tokens| - 1];
      FilterFailsIffUnreadable(src, f, coinType, active, init);
      if Filter(src, f, coinType, active, init).Err? {
        var i :| 0 <= i < |init| && !Readable(src, f, coinType, init[i]);
        assert tokens[i] == init[i];
      } else {
        assert forall i :: 0 <= i < |init| ==> tokens[i] == init[i];
      }
    }
  }

  /** The kept entries are an order-preserving subsequence of the list. */
  lemma {:induction false} FilterKeepsOrder(src: Sources, f: AssetFile, coinType: string,
                                            active: string, tokens: seq<TokenItem>)
    requires Filter(src, f, coinType, active, tokens).Ok?
    ensures IsSubsequence(Filter(src, f, coinType, active, tokens).value, tokens)
  {
    if |tokens| > 0 {
      var init := tokens[..|tokens| - 1];
      var last := tokens[|tokens| - 1];
      FilterKeepsOrder(src, f, coinType, active, init);
      var kept := Filter(src, f, coinType, active, init).value;
      var r := Filter(src, f, coinType, active, tokens).value;
      if IsActive(src, f, coinType, active, last) {
        assert r == kept + [last];
        assert r[..|r| - 1] == kept;
      } else {
        assert r == kept;
        SubsequenceOfPrefix(kept, init, last);
      }
    }
  }

  /** A subsequence of a list is a subsequence of any extension of it. */
  lemma {:induction false} SubsequenceOfPrefix(a: seq<TokenItem>, b: seq<TokenItem>, x: TokenItem)
    requires IsSubsequence(a, b)
    ensures IsSubsequence(a, b + [x])
    decreases |b|, 1
  {
    if |a| > 0 && a[|a| - 1] == x {
      var b' := b + [x];
      assert b'[..|b'| - 1] == b;
      SubsequenceDropLast(a, b);
    } else {
      assert (b + [x])[..|b|] == b;
    }
  }

  /** Dropping the last element of a subsequence leaves a subsequence. */
  lemma {:induction false} SubsequenceDropLast(a: seq<TokenItem>, b: seq<TokenItem>)
    requires |a| > 0 && IsSubsequence(a, b)
    ensures IsSubsequence(a[..|a| - 1], b)
    decreases |b|, 0
  {
    var a' := a[..|a| - 1];
    if |a'| > 0 {
      if a[|a| - 1] == b[|b| - 1] {
        SubsequenceOfPrefix(a', b[..|b| - 1], b[|b| - 1]);
        assert b[..|b| - 1] + [b[|b| - 1]] == b;
      } else {
        SubsequenceDropLast(a, b[..|b| - 1]);
        SubsequenceOfPrefix(a', b[..|b| - 1], b[|b| - 1]);
        assert b[..|b| - 1] + [b[|b| - 1]] == b;
      }
    }
  }

  /** Every kept entry is active, every active entry of the list is kept, and an active
      entry is kept as many times as it occurs in the list. */
  lemma {:induction false} FilterKeepsExactlyActive(src: Sources, f: AssetFile, coinType: string,
                                                    active: string, tokens: seq<TokenItem>)
    requires Filter(src, f, coinType, active, tokens).Ok?
    ensures var kept := Filter(src, f, coinType, active, tokens).value;
            forall t :: t in kept <==> t in tokens && IsActive(src, f, coinType, active, t)
    ensures var kept := Filter(src, f, coinType, active, tokens).value;
            forall t :: multiset(kept)[t] ==
                          (if IsActive(src, f, coinType, active, t) then multiset(tokens)[t] else 0)
  {
    if |tokens| > 0 {
      var init := tokens[..|tokens| - 1];
      var last := tokens[|tokens| - 1];
      FilterKeepsExactlyActive(src, f, coinType, active, init);
      assert tokens == init + [last];
      assert multiset(tokens) == multiset(init) + multiset{last};
      var kept := Filter(src, f, coinType, active, init).value;
      if IsActive(src, f, coinType, active, last) {
        assert multiset(kept + [last]) == multiset(kept) + multiset{last};
      }
    }
  }

  /** Filtering an already filtered list keeps every entry. */
  lemma {:induction false} FilterIdempotent(src: Sources, f: AssetFile, coinType: string,
                                            active: string, tokens: seq<TokenItem>)
    requires forall t :: t in tokens ==> IsActive(src, f, coinType, active, t)
    ensures Filter(src, f, coinType, active, tokens) == Ok(tokens)
  {
    if |tokens| > 0 {
      var init := tokens[..|tokens| - 1];
      assert forall t :: t in init ==> t in tokens;
      FilterIdempotent(src, f, coinType, active, init);
      assert tokens[|tokens| - 1] in tokens;
      assert init + [tokens[|tokens| - 1]] == tokens;
    }
  }

  /** A second pass over the entries a successful pass kept drops nothing, so (by the
      contract of FixTokenList) it writes nothing. */
  lemma TokenListIdempotent(src: Sources, f: AssetFile, coinType: string, active: string,
                            tokens: seq<TokenItem>)
    requires Filter(src, f, coinType, active, tokens).Ok?
    ensures var kept := Filter(src, f, coinType, active, tokens).value;
            Filter(src, f, coinType, active, kept) == Ok(kept)
  {
    FilterKeepsExactlyActive(src, f, coinType, active, tokens);
    FilterIdempotent(src, f, coinType, active, Filter(src, f, coinType, active, tokens).value);
  }

  function ExampleInfo(status: string): AssetInfo {
    AssetInfo(None, None, None, Some(status), [])
  }

  /** Descriptors for the example: the asset at address "B" is abandoned, all others active. */
  function ExampleSources(): Sources {
    Sources(h => h, (h, addr) => addr,
            p => if p == "B" then Ok(ExampleInfo("abandoned")) else Ok(ExampleInfo("active")))
  }

  function ExampleToken(address: string): TokenItem {
    TokenItem("ERC20", address, [])
  }

  /** Three tokens A (active), B (inactive) and C (active): the list becomes A, C. */
  lemma TokenListExample(f: AssetFile)
    ensures var a, b, c := ExampleToken("A"), ExampleToken("B"), ExampleToken("C");
            Filter(ExampleSources(), f, "coin", "active", [a, b, c]) == Ok([a, c])
  {
    var a, b, c := ExampleToken("A"), ExampleToken("B"), ExampleToken("C");
    var src := ExampleSources();
    assert "A" != "B" && "C" != "B";
    assert ExampleInfo("active").Status() == "active";
    assert ExampleInfo("abandoned").Status() != "active";
    assert DescriptorPath(src, f, "coin", a) == "A";
    assert DescriptorPath(src, f, "coin", b) == "B";
    assert DescriptorPath(src, f, "coin", c) == "C";
    assert [a, b, c][..2] == [a, b];
    assert [a, b][..1] == [a];
    assert [a][..0] == [];
    assert src.readInfo("A") == Ok(ExampleInfo("active"));
    assert Filter(src, f, "coin", "active", []) == Ok([]);
    assert [] + [a] == [a] && [a] + [c] == [a, c];
    assert Filter(src, f, "coin", "active", [a]) == Ok([a]);
    assert Filter(src, f, "coin", "active", [a, b]) == Ok([a]);
  }

  /** `FixTokenList`. `list` is the outcome of opening, reading and parsing the token list.
      On success the result is the entries to write back, or None when no write is needed. */
  method FixTokenList(src: Sources, f: AssetFile, coinType: string, active: string,
                      list: Result<TokenList>) returns (r: Result<Option<seq<TokenItem>>>)
    // A failure to read the list, or any entry's descriptor, aborts with no write.
    ensures list.Err? ==> r == Err(list.error)
    ensures list.Ok? ==> (r.Err? <==> Filter(src, f, coinType, active, list.value.tokens).Err?)
    ensures list.Ok? && r.Err? ==> r.error == Filter(src, f, coinType, active, list.value.tokens).error
    // Otherwise the kept entries are written back exactly when some entry was dropped.
    ensures r.Ok? ==>
              var kept := Filter(src, f, coinType, active, list.value.tokens).value;
              && (r.value.Some? <==> |kept| < |list.value.tokens|)
              && (r.value.Some? ==> r.value.value == kept)
  {
    if list.Err? {
      return Err(list.error);
    }
    var tokens := list.value.tokens;
    var filtered: seq<TokenItem> := [];
    var dropped := 0;
    var i := 0;
    while i < |tokens|
      invariant 0 <= i <= |tokens|
      invariant Filter(src, f, coinType, active, tokens[..i]) == Ok(filtered)
      invariant dropped + |filtered| == i
    {
      var token := tokens[i];
      assert tokens[..i + 1][..i] == tokens[..i];
      var info := src.readInfo(DescriptorPath(src, f, coinType, token));
      if info.Err? {
        FilterAbortsOnPrefix(src, f, coinType, active, tokens, i + 1);
        return Err(info.error);
      }
      if info.value.Status() != active {
        dropped := dropped + 1;
      } else {
        filtered := filtered + [token];
      }
      i := i + 1;
    }
    assert tokens[..i] == tokens;
    if dropped > 0 {
      return Ok(Some(filtered));
    }
    return Ok(None);
  }

  /** An error on a prefix is the error of the whole list. */
  lemma {:induction false} FilterAbortsOnPrefix(src: Sources, f: AssetFile, coinType: string,
                                                active: string, tokens: seq<TokenItem>, n: nat)
    requires n <= |tokens|
    requires Filter(src, f, coinType, active, tokens[..n]).Err?
    ensures Filter(src, f, coinType, active, tokens) == Filter(src, f, coinType, active, tokens[..n])
    decreases |tokens| - n
  {
    if n < |tokens| {
      assert tokens[..n + 1][..n] == tokens[..n];
      FilterAbortsOnPrefix(src, f, coinType, active, tokens, n + 1);
    } else {
      assert tokens[..n] == tokens;
    }
  }
}
