/**
 * The command's own way of setting up a plugin (extension.go): the
 * Shopware requirement is read from the decoded composer.json, and the
 * version range is worked out from it. Reading and decoding the file and
 * fetching the release list are outside this model; the decoded
 * `require` map and the fetch outcome are parameters, as are the version
 * library's parser, order, printer and constraint constructor.
 */
module MainExtension {
  import opened Wrappers
  import opened VersionRange

  const MissingCore := "shopware/core requirement is missing"
  const NoMatch := "the composer constraint does not match any shopware release"

  class ToolConfig {
    var rootDir: string
    var shopwareVersionConstraint: string
    var minShopwareVersion: string
    var maxShopwareVersion: string
    var checkAgainst: string

    /** A configuration for a plugin directory and its requirement, with the other fields empty. */
    constructor (root: string, constraint: string)
      ensures rootDir == root && shopwareVersionConstraint == constraint
      ensures minShopwareVersion == "" && maxShopwareVersion == "" && checkAgainst == ""
    {
      rootDir, shopwareVersionConstraint := root, constraint;
      minShopwareVersion, maxShopwareVersion, checkAgainst := "", "", "";
    }
  }

  /**
   * determineVersionRange: the configured requirement must be a valid
   * constraint (an invalid one panics). A failing fetch, or no release
   * matching, is returned with Min and Max left as they were; otherwise
   * they become the printed first and last matching release.
   */
  method DetermineVersionRange<V>(cfg: ToolConfig, newConstraint: string -> Result<V -> bool, string>,
                                  versions: Result<seq<string>, string>, parse: string -> Option<V>,
                                  le: (V, V) -> bool, str: V -> string)
    returns (err: Option<string>)
    requires newConstraint(cfg.shopwareVersionConstraint).Ok?
    modifies cfg
    ensures cfg.rootDir == old(cfg.rootDir) && cfg.shopwareVersionConstraint == old(cfg.shopwareVersionConstraint)
    ensures cfg.checkAgainst == old(cfg.checkAgainst)
    ensures versions.Err? ==> err == Some(versions.error)
    ensures err.Some? ==> cfg.minShopwareVersion == old(cfg.minShopwareVersion) && cfg.maxShopwareVersion == old(cfg.maxShopwareVersion)
    ensures versions.Ok? ==> (
      var m := MatchingVersions(versions.value, parse, le, newConstraint(cfg.shopwareVersionConstraint).value);
      && (m == [] ==> err == Some(NoMatch))
      && (m != [] ==> err == None && cfg.minShopwareVersion == str(m[0]) && cfg.maxShopwareVersion == str(m[|m| - 1])))
  {
    var constraint := newConstraint(cfg.shopwareVersionConstraint).value;
    if versions.Err? {
      return Some(versions.error);
    }
    var rs := versions.value;
    var vs: seq<V> := [];
    for i := 0 to |rs|
      invariant vs == Parsed(rs[..i], parse)
    {
      assert rs[..i + 1][..i] == rs[..i];
      var v := parse(rs[i]);
      if v.None? {
        continue;
      }
      vs := vs + [v.value];
    }
    assert rs[..|rs|] == rs;
    vs := SortBy(vs, le);
    var matchingVersions: seq<V> := [];
    for i := 0 to |vs|
      invariant matchingVersions == Matching(vs[..i], constraint)
    {
      assert vs[..i + 1][..i] == vs[..i];
      if constraint(vs[i]) {
        matchingVersions := matchingVersions + [vs[i]];
      }
    }
    assert vs[..|vs|] == vs;
    if |matchingVersions| == 0 {
      return Some(NoMatch);
    }
    cfg.minShopwareVersion := str(matchingVersions[0]);
    cfg.maxShopwareVersion := str(matchingVersions[|matchingVersions| - 1]);
    return None;
  }

  /**
   * guessByPlugin after the decode: without a `shopware/core` requirement
   * it fails; otherwise the requirement becomes the configuration's
   * constraint and the version range is worked out, its error passed on.
   */
  method GuessByPlugin<V>(rootDir: string, require: map<string, string>, newConstraint: string -> Result<V -> bool, string>,
                          versions: Result<seq<string>, string>, parse: string -> Option<V>,
                          le: (V, V) -> bool, str: V -> string)
    returns (r: Result<ToolConfig, string>)
    requires "shopware/core" in require ==> newConstraint(require["shopware/core"]).Ok?
    ensures "shopware/core" !in require ==> r == Err(MissingCore)
    ensures "shopware/core" in require && versions.Err? ==> r == Err(versions.error)
    ensures "shopware/core" in require && versions.Ok? ==> (
      var m := MatchingVersions(versions.value, parse, le, newConstraint(require["shopware/core"]).value);
      && (m == [] ==> r == Err(NoMatch))
      && (m != [] ==> (r.Ok? && fresh(r.value) && r.value.rootDir == rootDir &&
          r.value.shopwareVersionConstraint == require["shopware/core"] && r.value.checkAgainst == "" &&
          r.value.minShopwareVersion == str(m[0]) && r.value.maxShopwareVersion == str(m[|m| - 1]))))
  {
    if "shopware/core" !in require {
      return Err(MissingCore);
    }
    var cfg := new ToolConfig(rootDir, require["shopware/core"]);
    var err := DetermineVersionRange(cfg, newConstraint, versions, parse, le, str);
    if err.Some? {
      return Err(err.value);
    }
    return Ok(cfg);
  }

  /**
   * On success Min and Max are the least and greatest release that parses
   * and satisfies the constraint: both satisfy it, Min is not above Max,
   * and every such release lies between them.
   */
  lemma SuccessMeaning<V(!new)>(rs: seq<string>, parse: string -> Option<V>, le: (V, V) -> bool, check: V -> bool, v: V)
    requires TotalPreorder(le)
    requires MatchingVersions(rs, parse, le, check) != []
    ensures var m := MatchingVersions(rs, parse, le, check);
      && check(m[0]) && check(m[|m| - 1]) && le(m[0], m[|m| - 1])
      && (check(v) && (exists i :: 0 <= i < |rs| && parse(rs[i]) == Some(v)) ==> le(m[0], v) && le(v, m[|m| - 1]))
  {
    var m := MatchingVersions(rs, parse, le, check);
    MatchingBounds(rs, parse, le, check);
    MatchingVersionsMeaning(rs, parse, le, check, v);
    if v in m {
      var i :| 0 <= i < |m| && m[i] == v;
    }
  }

  /** No release matches exactly when none of the listed releases that parse satisfies the constraint. */
  lemma NoMatchMeaning<V(!new)>(rs: seq<string>, parse: string -> Option<V>, le: (V, V) -> bool, check: V -> bool)
    requires TotalPreorder(le)
    ensures MatchingVersions(rs, parse, le, check) == [] <==>
      forall i :: 0 <= i < |rs| && parse(rs[i]).Some? ==> !check(parse(rs[i]).value)
  {
    var m := MatchingVersions(rs, parse, le, check);
    if m != [] {
      MatchingVersionsMeaning(rs, parse, le, check, m[0]);
      assert m[0] in m;
    } else {
      forall i | 0 <= i < |rs| && parse(rs[i]).Some? ensures !check(parse(rs[i]).value) {
        MatchingVersionsMeaning(rs, parse, le, check, parse(rs[i]).value);
      }
    }
  }
}
