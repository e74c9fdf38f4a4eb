/**
 * The tool configuration of an extension (internal/tool/extension.go):
 * the extension and its validation ignores are stored, then the range of
 * Shopware versions to check against is worked out from the extension's
 * constraint and the list of releases. Asking the extension for its
 * constraint and fetching the release list are outside this model; their
 * outcomes are parameters, as are the version library's parser, order,
 * printer and constraint check.
 */
module ToolExtension {
  import opened Wrappers
  import opened VersionRange
  import opened ToolResult

  /** The release assumed when no release matches. */
  const DefaultVersion := "6.7.0.0"

  class ToolConfig<E> {
    var minShopwareVersion: string
    var maxShopwareVersion: string
    var checkAgainst: string
    var extension: E
    var validationIgnores: seq<ToolConfigIgnore>

    /** A configuration for an extension and its ignores, with the other fields empty. */
    constructor (ext: E, ignores: seq<ToolConfigIgnore>)
      ensures extension == ext && validationIgnores == ignores
      ensures minShopwareVersion == "" && maxShopwareVersion == "" && checkAgainst == ""
    {
      extension := ext;
      validationIgnores := ignores;
      minShopwareVersion, maxShopwareVersion, checkAgainst := "", "", "";
    }
  }

  /** The least and greatest matching release, or the default release for both when none matches. */
  function Range<V>(m: seq<V>, fallback: V): (V, V) {
    if m == [] then (fallback, fallback) else (m[0], m[|m| - 1])
  }

  /**
   * determineVersionRange: a failing constraint lookup, then a failing
   * fetch, is returned with nothing set; otherwise Min and Max become the
   * printed ends of the matching releases, or of the default release when
   * none matches. The other fields never change.
   */
  method DetermineVersionRange<E, V>(cfg: ToolConfig<E>, constraint: Result<V -> bool, string>,
                                     versions: Result<seq<string>, string>, parse: string -> Option<V>,
                                     le: (V, V) -> bool, str: V -> string)
    returns (err: Option<string>)
    requires parse(DefaultVersion).Some?
    modifies cfg
    ensures cfg.extension == old(cfg.extension) && cfg.validationIgnores == old(cfg.validationIgnores)
    ensures cfg.checkAgainst == old(cfg.checkAgainst)
    ensures constraint.Err? ==> err == Some(constraint.error)
    ensures constraint.Ok? && versions.Err? ==> err == Some(versions.error)
    ensures err.Some? ==> cfg.minShopwareVersion == old(cfg.minShopwareVersion) && cfg.maxShopwareVersion == old(cfg.maxShopwareVersion)
    ensures constraint.Ok? && versions.Ok? ==> (err == None &&
      var bounds := Range(MatchingVersions(versions.value, parse, le, constraint.value), parse(DefaultVersion).value);
      cfg.minShopwareVersion == str(bounds.0) && cfg.maxShopwareVersion == str(bounds.1))
  {
    if constraint.Err? {
      return Some(constraint.error);
    }
    var check := constraint.value;
    if versions.Err? {
      return Some(versions.error);
    }
    var rs := versions.value;
    var vs: seq<V> := [];
    for i := 0 to |rs|
      invariant vs == Parsed(rs[..i], parse)
    {
      assert rs[..i + 1][..i] == rs[..i];
      var v := parse(rs[i]);
      if v.None? {
        continue;
      }
      vs := vs + [v.value];
    }
    assert rs[..|rs|] == rs;
    vs := SortBy(vs, le);
    var matchingVersions: seq<V> := [];
    for i := 0 to |vs|
      invariant matchingVersions == Matching(vs[..i], check)
    {
      assert vs[..i + 1][..i] == vs[..i];
      if check(vs[i]) {
        matchingVersions := matchingVersions + [vs[i]];
      }
    }
    assert vs[..|vs|] == vs;
    if |matchingVersions| == 0 {
      matchingVersions := matchingVersions + [parse(DefaultVersion).value];
    }
    cfg.minShopwareVersion := str(matchingVersions[0]);
    cfg.maxShopwareVersion := str(matchingVersions[|matchingVersions| - 1]);
    return None;
  }

  /**
   * ConvertExtensionToToolConfig: a fresh configuration holding the
   * extension and its ignores, with the version range worked out, or the
   * error of working it out.
   */
  method ConvertExtensionToToolConfig<E, V>(ext: E, ignores: seq<ToolConfigIgnore>, constraint: Result<V -> bool, string>,
                                            versions: Result<seq<string>, string>, parse: string -> Option<V>,
                                            le: (V, V) -> bool, str: V -> string)
    returns (r: Result<ToolConfig<E>, string>)
    requires parse(DefaultVersion).Some?
    ensures r.Err? <==> constraint.Err? || versions.Err?
    ensures constraint.Err? ==> r == Err(constraint.error)
    ensures constraint.Ok? && versions.Err? ==> r == Err(versions.error)
    ensures r.Ok? ==> (fresh(r.value) && r.value.extension == ext && r.value.validationIgnores == ignores &&
      r.value.checkAgainst == "" &&
      var bounds := Range(MatchingVersions(versions.value, parse, le, constraint.value), parse(DefaultVersion).value);
      r.value.minShopwareVersion == str(bounds.0) && r.value.maxShopwareVersion == str(bounds.1))
  {
    var cfg := new ToolConfig(ext, ignores);
    var err := DetermineVersionRange(cfg, constraint, versions, parse, le, str);
    if err.Some? {
      return Err(err.value);
    }
    return Ok(cfg);
  }

  /**
   * What the range means: with some release matching, Min and Max are the
   * least and greatest matching release, both satisfy the constraint and
   * Min is not above Max; with none, both are the default release.
   */
  lemma RangeMeaning<V(!new)>(rs: seq<string>, parse: string -> Option<V>, le: (V, V) -> bool, check: V -> bool, fallback: V)
    requires TotalPreorder(le)
    ensures var m := MatchingVersions(rs, parse, le, check);
      var bounds := Range(m, fallback);
      && (m == [] ==> bounds == (fallback, fallback))
      && (m != [] ==> (check(bounds.0) && check(bounds.1) && le(bounds.0, bounds.1) &&
          forall i :: 0 <= i < |m| ==> le(bounds.0, m[i]) && le(m[i], bounds.1)))
  {
    if MatchingVersions(rs, parse, le, check) != [] {
      MatchingBounds(rs, parse, le, check);
    }
  }
}
