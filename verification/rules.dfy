/**
 * The extension index: buildExtensionMap folds the ordered rule list into a map
 * from lower-cased extension to destination directory, a later rule overwriting
 * an earlier one that claims the same extension.
 */
module Rules {
  import opened Options
  import opened Strings
  import opened Paths

  /** A routing rule: the extensions it claims (with their leading '.') and where matching files go. */
  datatype Rule = Rule(extensions: seq<string>, destination: Path)

  type ExtensionMap = map<string, Path>

  /** Some extension in `exts` lower-cases to `key`. */
  ghost predicate ListsIn(exts: seq<string>, key: string) {
    exists j :: 0 <= j < |exts| && Lower(exts[j]) == key
  }

  /** The rule claims `key`. */
  ghost predicate Lists(rule: Rule, key: string) {
    ListsIn(rule.extensions, key)
  }

  /** Rule `i` claims `key` and no rule after it does: the rule whose destination must win. */
  ghost predicate LastClaim(rules: seq<Rule>, i: int, key: string) {
    && 0 <= i < |rules|
    && Lists(rules[i], key)
    && forall i' :: i < i' < |rules| ==> !Lists(rules[i'], key)
  }

  /** The inner loop: each extension, lower-cased, is (re)bound to `dest`, in list order. */
  function AddExtensions(m: ExtensionMap, exts: seq<string>, dest: Path): (r: ExtensionMap)
    ensures forall k :: k in r <==> k in m || ListsIn(exts, k)
    ensures forall k :: k in r ==> r[k] == if ListsIn(exts, k) then dest else m[k]
    decreases |exts|
  {
    if |exts| == 0 then m
    else
      var init := exts[..|exts| - 1];
      var r := AddExtensions(m, init, dest)[Lower(exts[|exts| - 1]) := dest];
      assert forall k :: ListsIn(exts, k) <==> ListsIn(init, k) || k == Lower(exts[|exts| - 1]) by {
        forall k | ListsIn(init, k) ensures ListsIn(exts, k) {
          var j :| 0 <= j < |init| && Lower(init[j]) == k;
          assert exts[j] == init[j];
        }
      }
      r
  }

  /** The index's keys are the keys claimed by the rules. */
  ghost predicate KeysClaimed(rules: seq<Rule>, m: ExtensionMap) {
    forall k :: k in m <==> exists i :: 0 <= i < |rules| && Lists(rules[i], k)
  }

  /** Each key claimed by the rules maps to the destination of its last claiming rule. */
  ghost predicate LastClaimWins(rules: seq<Rule>, m: ExtensionMap) {
    forall i, k :: LastClaim(rules, i, k) ==> k in m && m[k] == rules[i].destination
  }

  /**
   * buildExtensionMap: the keys are exactly the lower-cased extensions of all
   * rules, and each key maps to the destination of the last rule that claims it.
   */
  function BuildExtensionMap(rules: seq<Rule>): (r: ExtensionMap)
    ensures KeysClaimed(rules, r)
    ensures LastClaimWins(rules, r)
    decreases |rules|
  {
    if |rules| == 0 then map[]
    else
      var n := |rules| - 1;
      var prev := BuildExtensionMap(rules[..n]);
      var r := AddExtensions(prev, rules[n].extensions, rules[n].destination);
      AddRuleStep(rules, prev, r);
      r
  }

  /** Adding the last rule's extensions to the index of the others gives the index of all. */
  lemma AddRuleStep(rules: seq<Rule>, prev: ExtensionMap, r: ExtensionMap)
    requires |rules| > 0
    requires KeysClaimed(rules[..|rules| - 1], prev) && LastClaimWins(rules[..|rules| - 1], prev)
    requires r == AddExtensions(prev, rules[|rules| - 1].extensions, rules[|rules| - 1].destination)
    ensures KeysClaimed(rules, r) && LastClaimWins(rules, r)
  {
    var n := |rules| - 1;
    var init := rules[..n];
    forall k ensures k in r <==> exists i :: 0 <= i < |rules| && Lists(rules[i], k) {
      if k in r && !Lists(rules[n], k) {
        assert k in prev;
        var i :| 0 <= i < n && Lists(init[i], k);
        assert rules[i] == init[i];
      }
      if exists i :: 0 <= i < |rules| && Lists(rules[i], k) {
        var i :| 0 <= i < |rules| && Lists(rules[i], k);
        if i < n {
          assert init[i] == rules[i];
        }
      }
    }
    forall i, k | LastClaim(rules, i, k) ensures k in r && r[k] == rules[i].destination {
      if i < n {
        assert !Lists(rules[n], k);
        assert LastClaim(init, i, k) by {
          forall i' | i < i' < n ensures !Lists(init[i'], k) {
            assert init[i'] == rules[i'];
          }
          assert init[i] == rules[i];
        }
      }
    }
  }

  /** Every key of the index is lower-case, so only lower-cased lookups can hit. */
  lemma KeysAreLower(rules: seq<Rule>)
    ensures forall k :: k in BuildExtensionMap(rules) ==> IsLower(k)
  {
    forall k | k in BuildExtensionMap(rules) ensures IsLower(k) {
      var i :| 0 <= i < |rules| && Lists(rules[i], k);
      var j :| 0 <= j < |rules[i].extensions| && Lower(rules[i].extensions[j]) == k;
      LowerFacts(rules[i].extensions[j]);
    }
  }

  /** The lookup processFile performs: lower-case the extension, then consult the index. */
  function Route(m: ExtensionMap, ext: string): Option<Path> {
    var key := Lower(ext);
    if key in m then Some(m[key]) else None
  }

  /**
   * Routing by the built index: an extension, in any letter case, goes to the
   * last rule claiming its lower-case form, and nowhere when no rule claims it.
   */
  lemma RouteFollowsLastRule(rules: seq<Rule>, ext: string)
    ensures Route(BuildExtensionMap(rules), ext).None? <==> forall i :: 0 <= i < |rules| ==> !Lists(rules[i], Lower(ext))
    ensures forall i :: LastClaim(rules, i, Lower(ext)) ==> Route(BuildExtensionMap(rules), ext) == Some(rules[i].destination)
    ensures Route(BuildExtensionMap(rules), ext) == Route(BuildExtensionMap(rules), Lower(ext))
  {
    var m := BuildExtensionMap(rules);
    var key := Lower(ext);
    LowerFacts(ext);
    assert key in m <==> exists i :: 0 <= i < |rules| && Lists(rules[i], key);
    forall i | LastClaim(rules, i, key) ensures Route(m, ext) == Some(rules[i].destination) {
      assert key in m && m[key] == rules[i].destination;
    }
  }

  /** Among two rules claiming the same extension, the later one wins unless a still later rule claims it. */
  lemma LaterRuleWins(rules: seq<Rule>, i: int, j: int, ext: string)
    requires 0 <= i < j < |rules|
    requires Lists(rules[i], Lower(ext)) && Lists(rules[j], Lower(ext))
    requires forall l :: j < l < |rules| ==> !Lists(rules[l], Lower(ext))
    ensures Route(BuildExtensionMap(rules), ext) == Some(rules[j].destination)
  {
    assert LastClaim(rules, j, Lower(ext));
  }
}
