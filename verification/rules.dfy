/**
 The subtitle-group rule engine of src/regex_parser.rs.

 Rules are grouped by subtitle-group name. The built-in table has one group,
 `LoliSub`, with two patterns; rules from the environment replace built-in
 groups of the same name. A file name is tried against every group whose name
 it contains, rule by rule, and the first rule that matches with at least one
 capture group decides.

 The regex engine is not modelled: a compiled pattern is a function from the
 file name to its capture groups (group 1 first, `None` for a group that did
 not take part in the match), and compilation is a parameter. The order in
 which a `HashMap` hands out its groups is unspecified, so it is a parameter
 too.
 */
module RuleParser {
  import opened Common
  import opened Text
  import Utils

  /** Capture groups 1, 2, ... of one match; `None` for a group that did not participate. */
  type Groups = seq<Option<string>>

  /** A compiled pattern: the captures of its first match in a file name, if any. */
  type Matcher = string -> Option<Groups>

  /** How the lookup ends: a season/episode pair, no match, or a panic from `unwrap` on a missing group. */
  datatype RuleResult = Matched(info: Utils.EpisodeInfo) | NoMatch | Panicked

  const LOLISUB: string := "LoliSub"

  /** The built-in patterns of the `LoliSub` group, in order. */
  const LOLISUB_RULES: seq<string> := [@"\[LoliSub\]\s*-\s*S(\d{2})E(\d{2})", @"\[LoliSub\]\s*-\s*(\d{2})"]

  function DefaultRules(): (r: map<string, seq<string>>)
    ensures forall g :: g in r <==> g == LOLISUB
    ensures r[LOLISUB] == LOLISUB_RULES
  {
    map[LOLISUB := LOLISUB_RULES]
  }

  /**
   The `for (name, rules) in external_rules.rules` loop: each external group is
   inserted in turn, whatever order `keys` lists them in.
   */
  function InsertAll(base: map<string, seq<string>>, external: map<string, seq<string>>, keys: seq<string>)
    : (r: map<string, seq<string>>)
    requires forall k :: k in keys ==> k in external
    ensures forall k :: k in r <==> k in base || k in keys
    ensures forall k :: k in keys ==> r[k] == external[k]
    ensures forall k :: k in base && k !in keys ==> r[k] == base[k]
    decreases |keys|
  {
    if |keys| == 0 then base
    else
      var rest := InsertAll(base[keys[0] := external[keys[0]]], external, keys[1..]);
      assert forall k :: k in keys <==> k == keys[0] || k in keys[1..];
      rest
  }

  /**
   The final rule table: the built-in groups overridden, group by group and
   wholesale, by the external ones. `keys` is the order the external map is
   iterated in.
   */
  function MergeRules(external: map<string, seq<string>>, keys: seq<string>): (r: map<string, seq<string>>)
    requires forall k :: k in keys <==> k in external
    ensures r == DefaultRules() + external
  {
    var r := InsertAll(DefaultRules(), external, keys);
    assert r.Keys == (DefaultRules() + external).Keys;
    r
  }

  /** An external group replaces the built-in one of the same name; other built-in groups stay as they are. */
  lemma ExternalRulesOverride(external: map<string, seq<string>>, keys: seq<string>)
    requires forall k :: k in keys <==> k in external
    ensures forall k :: k in external ==> MergeRules(external, keys)[k] == external[k]
    ensures LOLISUB !in external ==> MergeRules(external, keys)[LOLISUB] == LOLISUB_RULES
    ensures MergeRules(external, keys).Keys == {LOLISUB} + external.Keys
  {
  }

  /** Every group's patterns, compiled one by one. */
  function CompileRules(rules: map<string, seq<string>>, compile: string -> Matcher): (r: map<string, seq<Matcher>>)
    ensures r.Keys == rules.Keys
    ensures forall k :: k in r ==> |r[k]| == |rules[k]| && forall i :: 0 <= i < |r[k]| ==> r[k][i] == compile(rules[k][i])
  {
    map k | k in rules :: seq(|rules[k]|, i requires 0 <= i < |rules[k]| => compile(rules[k][i]))
  }

  /**
   What one match decides: with two or more groups the first two, verbatim;
   with exactly one, season "01" and that group; with none, nothing (the
   search goes on). A group that did not participate makes `unwrap` panic.
   */
  function Decide(groups: Groups): (d: Option<RuleResult>)
    ensures d.None? <==> |groups| == 0
    ensures d != Some(NoMatch)
    ensures d.Some? && d.value.Matched? ==>
      if |groups| >= 2 then groups[0].Some? && groups[1].Some? && d.value.info == Utils.EpisodeInfo(groups[0].value, groups[1].value)
      else groups[0].Some? && d.value.info == Utils.EpisodeInfo("01", groups[0].value)
    ensures d == Some(Panicked) <==> |groups| >= 1 && (groups[0].None? || (|groups| >= 2 && groups[1].None?))
  {
    var len := |groups| + 1;
    if len >= 3 then
      if groups[0].Some? && groups[1].Some? then Some(Matched(Utils.EpisodeInfo(groups[0].value, groups[1].value)))
      else Some(Panicked)
    else if len == 2 then
      if groups[0].Some? then Some(Matched(Utils.EpisodeInfo("01", groups[0].value))) else Some(Panicked)
    else None
  }

  /** What one rule contributes for `fileName`: nothing when it does not match or matches without groups. */
  function Verdict(fileName: string, rule: Matcher): Option<RuleResult> {
    var caps := rule(fileName);
    if caps.Some? then Decide(caps.value) else None
  }

  /** The rules of one group, in list order. */
  function TryRules(fileName: string, rules: seq<Matcher>): (r: RuleResult)
    ensures r.NoMatch? <==> forall k :: 0 <= k < |rules| ==> Verdict(fileName, rules[k]).None?
  {
    if |rules| == 0 then NoMatch
    else
      var v := Verdict(fileName, rules[0]);
      if v.Some? then v.value
      else
        var r := TryRules(fileName, rules[1..]);
        assert forall k :: 1 <= k < |rules| ==> rules[k] == rules[1..][k - 1];
        r
  }

  /** The first rule that decides anything decides the result. */
  lemma {:induction false} FirstDecidingRuleWins(fileName: string, rules: seq<Matcher>, k: nat)
    requires k < |rules|
    requires Verdict(fileName, rules[k]).Some?
    requires forall j :: 0 <= j < k ==> Verdict(fileName, rules[j]).None?
    ensures TryRules(fileName, rules) == Verdict(fileName, rules[k]).value
    decreases k
  {
    if k > 0 {
      assert forall j :: 0 <= j < k - 1 ==> rules[1..][j] == rules[j + 1];
      FirstDecidingRuleWins(fileName, rules[1..], k - 1);
    }
  }

  /**
   `extract_episode_info` in src/regex_parser.rs: the groups in `order`, each
   tried only when the file name contains its name; there is no fallback to
   the generic parser.
   */
  function ExtractEpisodeInfo(fileName: string, compiled: map<string, seq<Matcher>>, order: seq<string>)
    : (r: RuleResult)
    requires forall g :: g in order ==> g in compiled
    ensures r.NoMatch? <==>
      forall g :: 0 <= g < |order| && Contains(fileName, order[g]) ==> TryRules(fileName, compiled[order[g]]).NoMatch?
    ensures !r.NoMatch? ==>
      exists g :: 0 <= g < |order| && Contains(fileName, order[g]) && TryRules(fileName, compiled[order[g]]) == r
  {
    if |order| == 0 then NoMatch
    else
      var name := order[0];
      var rest := ExtractEpisodeInfo(fileName, compiled, order[1..]);
      assert forall g :: 1 <= g < |order| ==> order[g] == order[1..][g - 1];
      if !Contains(fileName, name) then rest
      else
        var r := TryRules(fileName, compiled[name]);
        if r.NoMatch? then rest else r
  }

  /** The first group in `order` decides unless its name is absent or its rules find nothing. */
  lemma ExtractStep(fileName: string, compiled: map<string, seq<Matcher>>, order: seq<string>)
    requires forall g :: g in order ==> g in compiled
    requires |order| > 0
    ensures var first := order[0];
      ExtractEpisodeInfo(fileName, compiled, order) ==
        if Contains(fileName, first) && !TryRules(fileName, compiled[first]).NoMatch?
        then TryRules(fileName, compiled[first])
        else ExtractEpisodeInfo(fileName, compiled, order[1..])
  {
  }

  /** Among the groups whose names occur, the first one whose rules decide anything decides the result. */
  lemma {:induction false} FirstDecidingGroupWins(fileName: string, compiled: map<string, seq<Matcher>>,
                                                  order: seq<string>, g: nat)
    requires forall h :: h in order ==> h in compiled
    requires g < |order| && Contains(fileName, order[g]) && !TryRules(fileName, compiled[order[g]]).NoMatch?
    requires forall h :: 0 <= h < g && Contains(fileName, order[h]) ==> TryRules(fileName, compiled[order[h]]).NoMatch?
    ensures ExtractEpisodeInfo(fileName, compiled, order) == TryRules(fileName, compiled[order[g]])
    decreases g
  {
    if g > 0 {
      SkipFirstGroup(fileName, compiled, order);
      UndecidedTail(fileName, compiled, order, g);
      FirstDecidingGroupWins(fileName, compiled, order[1..], g - 1);
    } else {
      ExtractStep(fileName, compiled, order);
    }
  }

  /** A first group that is absent or finds nothing is passed over. */
  lemma SkipFirstGroup(fileName: string, compiled: map<string, seq<Matcher>>, order: seq<string>)
    requires forall h :: h in order ==> h in compiled
    requires |order| > 0
    requires !Contains(fileName, order[0]) || TryRules(fileName, compiled[order[0]]).NoMatch?
    ensures ExtractEpisodeInfo(fileName, compiled, order) == ExtractEpisodeInfo(fileName, compiled, order[1..])
  {
    ExtractStep(fileName, compiled, order);
  }

  lemma UndecidedTail(fileName: string, compiled: map<string, seq<Matcher>>, order: seq<string>, g: nat)
    requires forall h :: h in order ==> h in compiled
    requires 0 < g < |order|
    requires forall h :: 0 <= h < g && Contains(fileName, order[h]) ==> TryRules(fileName, compiled[order[h]]).NoMatch?
    ensures order[1..][g - 1] == order[g]
    ensures forall h :: 0 <= h < g - 1 && Contains(fileName, order[1..][h]) ==>
      TryRules(fileName, compiled[order[1..][h]]).NoMatch?
  {
    assert forall h :: 0 <= h < g - 1 ==> order[1..][h] == order[h + 1];
  }

  /** A file name containing none of the group names gets nothing, whatever the rules say. */
  lemma NoGroupNameNoMatch(fileName: string, compiled: map<string, seq<Matcher>>, order: seq<string>)
    requires forall g :: g in order ==> g in compiled
    requires forall g :: g in order ==> !Contains(fileName, g)
    ensures ExtractEpisodeInfo(fileName, compiled, order) == NoMatch
  {
  }

  /** The rules of a group whose name the file name does not contain never affect the result. */
  lemma {:induction false} AbsentGroupIrrelevant(fileName: string, compiled: map<string, seq<Matcher>>,
                                                 order: seq<string>, name: string, rules: seq<Matcher>)
    requires forall g :: g in order ==> g in compiled
    requires !Contains(fileName, name)
    ensures ExtractEpisodeInfo(fileName, compiled[name := rules], order) == ExtractEpisodeInfo(fileName, compiled, order)
  {
    if |order| > 0 {
      var updated := compiled[name := rules];
      AbsentGroupIrrelevant(fileName, compiled, order[1..], name, rules);
      ExtractStep(fileName, compiled, order);
      ExtractStep(fileName, updated, order);
      assert Contains(fileName, order[0]) ==> updated[order[0]] == compiled[order[0]];
    }
  }

  /**
   With only the built-in table, a name carrying `[LoliSub]` whose first
   pattern captures two groups yields them verbatim, without padding.
   */
  lemma LoliSubTwoGroups(fileName: string, compile: string -> Matcher, season: string, episode: string)
    requires Contains(fileName, LOLISUB)
    requires compile(LOLISUB_RULES[0])(fileName) == Some([Some(season), Some(episode)])
    ensures ExtractEpisodeInfo(fileName, CompileRules(MergeRules(map[], []), compile), [LOLISUB])
      == Matched(Utils.EpisodeInfo(season, episode))
  {
    var compiled := CompileRules(MergeRules(map[], []), compile);
    assert compiled[LOLISUB][0] == compile(LOLISUB_RULES[0]);
    FirstDecidingRuleWins(fileName, compiled[LOLISUB], 0);
  }
}
