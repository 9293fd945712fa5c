/**
 * The parameter groups ("spaces") of a freqtrade hyperopt run and the expansion of the
 * two shorthand tokens. The expansion is written out twice in the repository, once in
 * `create_database` and once in `hypermanager_workload`; both copies are this function.
 */
module Groups {

  /** The five groups, in the order the tool gives them columns. */
  const AllGroups: seq<string> := ["buy", "sell", "roi", "stoploss", "trailing"]

  /** What `default` stands for: every group but `trailing`. */
  const DefaultGroups: seq<string> := ["buy", "sell", "roi", "stoploss"]

  predicate IsGroup(g: string) { g in AllGroups }

  /**
   * Token expansion: `all` anywhere gives the five groups, otherwise `default` anywhere
   * gives the first four, otherwise the tokens are kept as they are, in their order.
   */
  function Expand(tokens: seq<string>): (groups: seq<string>)
    ensures "all" in tokens ==> groups == AllGroups
    ensures "all" !in tokens && "default" in tokens ==> groups == DefaultGroups
    ensures "all" !in tokens && "default" !in tokens ==> groups == tokens
  {
    if "all" in tokens then AllGroups
    else if "default" in tokens then DefaultGroups
    else tokens
  }

  /** The shorthand for the four groups is the canonical order without its last group. */
  lemma DefaultIsAllButTrailing()
    ensures DefaultGroups == AllGroups[..4] && AllGroups[4] == "trailing"
    ensures "trailing" !in DefaultGroups
  {
  }

  /** No shorthand survives expansion. */
  lemma ExpandRemovesShorthands(tokens: seq<string>)
    ensures "all" !in Expand(tokens) && "default" !in Expand(tokens)
  {
    assert "all" !in AllGroups && "default" !in AllGroups;
  }

  /**
   * Expanding an expanded list changes nothing: the expansion is a normal form. Both copies in the
   * repository receive the same raw tokens and so compute the same list; this lemma adds that feeding
   * either one's output back in would not change it either.
   */
  lemma ExpandIdempotent(tokens: seq<string>)
    ensures Expand(Expand(tokens)) == Expand(tokens)
  {
    ExpandRemovesShorthands(tokens);
  }

  /**
   * When the tokens name only groups and shorthands, the expansion names only groups,
   * and never `trailing` when `default` decides.
   */
  lemma ExpandKnown(tokens: seq<string>)
    requires forall k :: 0 <= k < |tokens| ==> IsGroup(tokens[k]) || tokens[k] in ["all", "default"]
    ensures forall k :: 0 <= k < |Expand(tokens)| ==> IsGroup(Expand(tokens)[k])
    ensures "all" !in tokens && "default" in tokens ==> "trailing" !in Expand(tokens)
  {
    if "all" !in tokens && "default" !in tokens {
      forall k | 0 <= k < |tokens| ensures IsGroup(tokens[k]) {
        assert tokens[k] != "all" && tokens[k] != "default";
      }
    }
  }
}
