/**
 * `buildAASA` (src/index.ts:29-66): the Apple App Site Association document
 * for Universal Links, assembled from three optional environment strings.
 */
module AasaBuilder {
  import opened Wrappers
  import opened Strings
  import opened Sequences
  import opened PathNormalizer
  import opened Glob

  /** The worker's bindings `IOS_TEAM_ID`, `IOS_BUNDLE_ID` and `UL_PATHS`. */
  datatype Env = Env(teamId: Option<string>, bundleId: Option<string>, ulPaths: Option<string>)

  /** One entry of `applinks.details`. */
  datatype Detail = Detail(appID: string, paths: seq<string>)

  datatype AppLinks = AppLinks(apps: seq<string>, details: seq<Detail>)

  datatype WebCredentials = WebCredentials(apps: seq<string>)

  /** The document, before `JSON.stringify`. */
  datatype Aasa = Aasa(applinks: AppLinks, webcredentials: WebCredentials)

  const DefaultTeamId: string := "TEAMID"
  const DefaultBundleId: string := "com.MeshNetProtocol.OpenMesh.OpenMesh"
  const DefaultPaths: string := "/callback"

  /** `v || d` for an optional string: JavaScript treats both `undefined` and
      `""` as false, so either one selects the default. */
  function OrDefault(v: Option<string>, d: string): (r: string)
    ensures r == d || v == Some(r)
    ensures v == None || v == Some("") ==> r == d
    ensures v.Some? && v.value != "" ==> r == v.value
    ensures d != "" ==> r != ""
  {
    match v
    case Some(s) => if s != "" then s else d
    case None => d
  }

  /** The team identifier: the binding or its default, then trimmed. */
  function TeamId(env: Env): (t: string)
    ensures IsTrimmed(t)
  {
    Trim(OrDefault(env.teamId, DefaultTeamId))
  }

  /** The bundle identifier: the binding or its default, then trimmed. */
  function BundleId(env: Env): (b: string)
    ensures IsTrimmed(b)
  {
    Trim(OrDefault(env.bundleId, DefaultBundleId))
  }

  /** `${teamId}.${bundleId}`: the team identifier, one '.', then the
      bundle identifier, nothing else. */
  function AppId(env: Env): (id: string)
    ensures |id| == |TeamId(env)| + 1 + |BundleId(env)|
    ensures id[..|TeamId(env)|] == TeamId(env)
    ensures id[|TeamId(env)|] == '.'
    ensures id[|TeamId(env)| + 1..] == BundleId(env)
  {
    TeamId(env) + "." + BundleId(env)
  }

  /** The app identifier can be taken apart again: when the team identifier
      has no '.', it is the first '.'-separated field and the bundle
      identifier's fields are the rest. */
  lemma AppIdFields(env: Env)
    requires '.' !in TeamId(env)
    ensures Split(AppId(env), '.') == [TeamId(env)] + Split(BundleId(env), '.')
    ensures Split(AppId(env), '.')[0] == TeamId(env)
    ensures Join(Split(AppId(env), '.')[1..], '.') == BundleId(env)
  {
    SplitPiece(TeamId(env), '.', BundleId(env));
    assert ([TeamId(env)] + Split(BundleId(env), '.'))[1..] == Split(BundleId(env), '.');
  }

  /** With neither identifier bound (or both bound to ""), the app identifier
      is the documented default. */
  lemma DefaultAppId(env: Env)
    requires env.teamId == None || env.teamId == Some("")
    requires env.bundleId == None || env.bundleId == Some("")
    ensures AppId(env) == DefaultTeamId + "." + DefaultBundleId
    ensures AppId(env) == "TEAMID.com.MeshNetProtocol.OpenMesh.OpenMesh"
  {
    assert OrDefault(env.teamId, DefaultTeamId) == DefaultTeamId;
    assert OrDefault(env.bundleId, DefaultBundleId) == DefaultBundleId;
    TrimIdentity(DefaultTeamId);
    TrimIdentity(DefaultBundleId);
    DefaultAppIdSpelled();
  }

  /** The default team, '.', and the default bundle, as one string. */
  lemma DefaultAppIdSpelled()
    ensures DefaultTeamId + "." + DefaultBundleId == "TEAMID.com.MeshNetProtocol.OpenMesh.OpenMesh"
  {
  }

  /** The default applies before trimming, not after: a team identifier made
      only of whitespace is truthy, survives `||`, and trims to "", leaving an
      app identifier that starts with '.'. */
  lemma WhitespaceTeamId(env: Env)
    requires env.teamId.Some? && env.teamId.value != ""
    requires forall k :: 0 <= k < |env.teamId.value| ==> IsWhitespace(env.teamId.value[k])
    ensures TeamId(env) == ""
    ensures AppId(env) == "." + BundleId(env)
  {
    TrimAllWhitespace(env.teamId.value);
  }

  /** The trimmed, non-empty pieces, as a set. */
  function TrimmedForms(pieces: seq<string>): set<string>
  {
    set k | 0 <= k < |pieces| && Trim(pieces[k]) != "" :: Trim(pieces[k])
  }

  /** One more piece adds at most its own trimmed form. */
  lemma TrimmedFormsSnoc(pieces: seq<string>, p: string)
    ensures TrimmedForms(pieces + [p]) == TrimmedForms(pieces) + if Trim(p) != "" then {Trim(p)} else {}
  {
    var ps := pieces + [p];
    forall x | x in TrimmedForms(ps) ensures x in TrimmedForms(pieces) || (Trim(p) != "" && x == Trim(p)) {
      var k :| 0 <= k < |ps| && Trim(ps[k]) != "" && x == Trim(ps[k]);
      if k < |pieces| {
        assert ps[k] == pieces[k];
      }
    }
    forall x | x in TrimmedForms(pieces) ensures x in TrimmedForms(ps) {
      var k :| 0 <= k < |pieces| && Trim(pieces[k]) != "" && x == Trim(pieces[k]);
      assert ps[k] == pieces[k];
    }
    if Trim(p) != "" {
      assert ps[|pieces|] == p;
    }
  }

  /** `.map(s => s.trim()).filter(Boolean)`: trim every piece and drop the empty ones. */
  function TrimNonEmpty(pieces: seq<string>): (r: seq<string>)
    ensures |r| <= |pieces|
    ensures forall i :: 0 <= i < |r| ==> r[i] != "" && IsTrimmed(r[i])
    ensures forall x :: x in r <==> x in TrimmedForms(pieces)
  {
    if pieces == [] then []
    else
      var prev, p := pieces[..|pieces| - 1], pieces[|pieces| - 1];
      TrimmedFormsSnoc(prev, p);
      assert pieces == prev + [p];
      var rest, t := TrimNonEmpty(prev), Trim(p);
      if t == "" then rest
      else
        var r := rest + [t];
        assert forall i :: 0 <= i < |r| ==> r[i] != "" && IsTrimmed(r[i]) by {
          forall i | 0 <= i < |r| ensures r[i] != "" && IsTrimmed(r[i]) {
            if i < |rest| { assert r[i] == rest[i]; }
          }
        }
        r
  }

  /** A single piece contributes its trimmed form, unless that is empty. */
  lemma TrimNonEmptySingle(p: string)
    ensures TrimNonEmpty([p]) == if Trim(p) == "" then [] else [Trim(p)]
  {
    assert [p][..0] == [];
  }

  /** `map` and `filter` treat the pieces one at a time, so the result for a
      concatenation is the two results one after the other: the raw paths
      keep the order and the repetitions of `UL_PATHS`. */
  lemma {:induction false} TrimNonEmptyAppend(a: seq<string>, b: seq<string>)
    ensures TrimNonEmpty(a + b) == TrimNonEmpty(a) + TrimNonEmpty(b)
    decreases |b|
  {
    if b == [] {
      assert a + b == a;
    } else {
      var b', p := b[..|b| - 1], b[|b| - 1];
      var ab := a + b;
      assert ab[..|ab| - 1] == a + b' && ab[|ab| - 1] == p;
      TrimNonEmptyAppend(a, b');
    }
  }

  /** `rawPaths`: `UL_PATHS` (or "/callback") split on ',', trimmed, empty pieces dropped. */
  function RawPaths(env: Env): (raw: seq<string>)
    ensures forall i :: 0 <= i < |raw| ==> raw[i] != "" && IsTrimmed(raw[i])
  {
    TrimNonEmpty(Split(OrDefault(env.ulPaths, DefaultPaths), ','))
  }

  /** The normal form of each raw path, position by position. */
  function NormalizeEach(raw: seq<string>): (out: seq<string>)
    ensures |out| == |raw|
    ensures forall k :: 0 <= k < |raw| ==> out[k] == NormalizeEntry(raw[k])
  {
    seq(|raw|, k requires 0 <= k < |raw| => NormalizeEntry(raw[k]))
  }

  /** `basePaths`: the raw paths normalised one by one, then deduplicated
      keeping first occurrences, so the base paths follow the order in which
      their first raw path appears in `UL_PATHS`. */
  function BasePaths(env: Env): (bps: seq<string>)
    ensures IsDedupOf(bps, NormalizeEach(RawPaths(env)))
  {
    var raw := RawPaths(env);
    PushedAllKept(raw);
    assert Pushed(raw) == NormalizeEach(raw);
    Normalize(raw)
  }

  /** Every character of a raw path comes from the `UL_PATHS` value in force. */
  lemma RawPathChars(env: Env, c: char)
    ensures forall i :: 0 <= i < |RawPaths(env)| && c in RawPaths(env)[i] ==>
              c in OrDefault(env.ulPaths, DefaultPaths)
  {
    var v := OrDefault(env.ulPaths, DefaultPaths);
    var pieces := Split(v, ',');
    forall i | 0 <= i < |RawPaths(env)| && c in RawPaths(env)[i] ensures c in v {
      assert RawPaths(env)[i] in TrimmedForms(pieces);
      var k :| 0 <= k < |pieces| && Trim(pieces[k]) != "" && RawPaths(env)[i] == Trim(pieces[k]);
      TrimChars(pieces[k], c);
      SplitChars(v, ',', k, c);
    }
  }

  /** No raw path contains ',': every one is a trimmed piece of the split. */
  lemma RawPathsNoSeparator(env: Env)
    ensures forall i :: 0 <= i < |RawPaths(env)| ==> ',' !in RawPaths(env)[i]
  {
    var raw := RawPaths(env);
    var pieces := Split(OrDefault(env.ulPaths, DefaultPaths), ',');
    forall i | 0 <= i < |raw| ensures ',' !in raw[i] {
      assert raw[i] in TrimmedForms(pieces);
      var m :| 0 <= m < |pieces| && Trim(pieces[m]) != "" && raw[i] == Trim(pieces[m]);
      if ',' in raw[i] {
        TrimChars(pieces[m], ',');
      }
    }
  }

  /** An element of `NormalizeEach(raw)` is the normal form of some raw path. */
  lemma NormalizeEachSource(raw: seq<string>, x: string) returns (k: int)
    requires x in NormalizeEach(raw)
    ensures 0 <= k < |raw| && x == NormalizeEntry(raw[k])
  {
    var out := NormalizeEach(raw);
    k :| 0 <= k < |out| && out[k] == x;
  }

  /** The base paths reaching the expansion loop: distinct, each starting
      with '/', none containing ',', and each either a raw path or '/'
      followed by one. */
  lemma BasePathsWellFormed(env: Env)
    ensures NoDuplicates(BasePaths(env))
    ensures forall i :: 0 <= i < |BasePaths(env)| ==> "/" <= BasePaths(env)[i]
    ensures forall i :: 0 <= i < |BasePaths(env)| ==> ',' !in BasePaths(env)[i]
    ensures forall i :: 0 <= i < |BasePaths(env)| ==>
              exists k :: 0 <= k < |RawPaths(env)| &&
                (BasePaths(env)[i] == RawPaths(env)[k] || BasePaths(env)[i] == "/" + RawPaths(env)[k])
  {
    var raw, bps := RawPaths(env), BasePaths(env);
    RawPathsNoSeparator(env);
    forall i | 0 <= i < |bps|
      ensures "/" <= bps[i]
      ensures ',' !in bps[i]
      ensures exists k :: 0 <= k < |raw| && (bps[i] == raw[k] || bps[i] == "/" + raw[k])
    {
      assert bps[i] in NormalizeEach(raw);
      var k := NormalizeEachSource(raw, bps[i]);
      TrimIdentity(raw[k]);
      assert ',' !in raw[k];
      assert bps[i] != raw[k] ==> bps[i][1..] == raw[k];
    }
  }

  /** Every character of a base path other than '/' comes from the
      `UL_PATHS` value in force. */
  lemma BasePathChars(env: Env, c: char)
    ensures c != '/' ==>
              forall i :: 0 <= i < |BasePaths(env)| && c in BasePaths(env)[i] ==>
                c in OrDefault(env.ulPaths, DefaultPaths)
  {
    var raw := RawPaths(env);
    var each := NormalizeEach(raw);
    RawPathChars(env, c);
    forall i | 0 <= i < |BasePaths(env)| && c in BasePaths(env)[i] && c != '/'
      ensures c in OrDefault(env.ulPaths, DefaultPaths)
    {
      var bp := BasePaths(env)[i];
      assert bp in each;
      var k :| 0 <= k < |each| && each[k] == bp;
      NormalizeEntryChars(raw[k], c);
    }
  }

  /** Base paths contain no wildcard when the `UL_PATHS` value has none. */
  lemma BasePathsLiteral(env: Env)
    requires env.ulPaths.Some? ==> IsLiteral(env.ulPaths.value)
    ensures forall i :: 0 <= i < |BasePaths(env)| ==> IsLiteral(BasePaths(env)[i])
  {
    var v := OrDefault(env.ulPaths, DefaultPaths);
    assert IsLiteral(v);
    forall i | 0 <= i < |BasePaths(env)| ensures IsLiteral(BasePaths(env)[i]) {
      if '*' in BasePaths(env)[i] {
        BasePathChars(env, '*');
      }
      if '?' in BasePaths(env)[i] {
        BasePathChars(env, '?');
      }
    }
  }

  /** The entries the loop pushes for one base path: the path itself, then
      its wildcard forms. The root gets one wildcard entry and never a doubled
      slash; a path ending in '/' gets `bp*` twice; any other path gets `bp*`
      and then the wildcard one level below it. */
  function Expand(bp: string): (r: seq<string>)
    ensures |r| == if bp == "/" then 2 else 3
    ensures r[0] == bp
    ensures forall i :: 0 <= i < |r| ==> bp <= r[i]
    ensures forall i :: 1 <= i < |r| ==> EndsWith(r[i], "*")
    ensures r[1] == bp + "*"
    ensures bp != "/" ==> (r[2] == r[1] <==> EndsWith(bp, "/"))
    ensures bp != "/" && !EndsWith(bp, "/") ==> r[2] == bp + "/" + "*"
  {
    if bp == "/" then ["/", "/*"]
    else [bp, bp + "*", if EndsWith(bp, "/") then bp + "*" else bp + "/*"]
  }

  /** The three shapes of an expansion: the root, a path without a trailing
      '/', and a path with one. */
  lemma ExpandExamples()
    ensures Expand("/") == ["/", "/*"]
    ensures Expand("/callback") == ["/callback", "/callback*", "/callback/*"]
    ensures Expand("/callback/") == ["/callback/", "/callback/*", "/callback/*"]
  {
    assert "/callback"[8..] == "k";
    assert "/callback" + "*" == "/callback*";
    assert "/callback" + "/*" == "/callback/*";
    assert "/callback/"[9..] == "/";
    assert "/callback/" + "*" == "/callback/*";
  }

  /** What one expansion routes to the app: exactly the URL paths that
      start with the base path (for a base path without wildcards). */
  lemma ExpandCovers(bp: string, s: string)
    requires IsLiteral(bp)
    ensures Covers(Expand(bp), s) <==> bp <= s
  {
    var r := Expand(bp);
    LiteralMatches(bp, s);
    LiteralStarMatches(bp, s);
    if bp != "/" && !EndsWith(bp, "/") {
      LiteralHead(bp, "/*", s);
      if bp <= s {
        StarMatchesAll(s[|bp|..]);
      }
      if Matches(bp + "/*", s) {
        assert bp <= s;
      }
    }
    if Covers(r, s) {
      var i :| 0 <= i < |r| && Matches(r[i], s);
    }
    if bp <= s {
      assert Matches(r[1], s);
    }
  }

  /** The wildcard one level below a literal base path adds nothing: whatever
      it matches, the wildcard appended directly to the base path matches too. */
  lemma SlashStarRedundant(bp: string, s: string)
    requires IsLiteral(bp)
    ensures Matches(bp + "/" + "*", s) ==> Matches(bp + "*", s)
  {
    assert bp + "/" + "*" == bp + "/*";
    LiteralHead(bp, "/*", s);
    LiteralStarMatches(bp, s);
  }

  /** The block for "/callback" also matches the sibling path "/callbackfoo",
      which is not under "/callback". */
  lemma ExpandCoversSibling()
    ensures Covers(Expand(DefaultPaths), DefaultPaths + "foo")
  {
    ExpandCovers(DefaultPaths, DefaultPaths + "foo");
  }

  /** `paths`: the expansions of the base paths, one block each, in order. */
  function ExpandAll(bps: seq<string>): (paths: seq<string>)
    ensures |paths| == 2 * Count(bps, "/") + 3 * (|bps| - Count(bps, "/"))
  {
    if bps == [] then [] else Expand(bps[0]) + ExpandAll(bps[1..])
  }

  /** Expanding a concatenation expands each part. */
  lemma {:induction false} ExpandAllAppend(a: seq<string>, b: seq<string>)
    ensures ExpandAll(a + b) == ExpandAll(a) + ExpandAll(b)
  {
    if a != [] {
      assert (a + b)[1..] == a[1..] + b;
      ExpandAllAppend(a[1..], b);
    } else {
      assert a + b == b;
    }
  }

  /** The block of base path `bps[k]` sits, whole and unchanged, right after
      the blocks of the base paths before it. */
  lemma ExpandAllBlock(bps: seq<string>, k: int)
    requires 0 <= k < |bps|
    ensures var o := |ExpandAll(bps[..k])|;
            o + |Expand(bps[k])| <= |ExpandAll(bps)| &&
            ExpandAll(bps)[o..o + |Expand(bps[k])|] == Expand(bps[k])
  {
    var before, bp, after := bps[..k], bps[k], bps[k + 1..];
    assert bps == before + ([bp] + after);
    ExpandAllAppend(before, [bp] + after);
    assert ExpandAll([bp] + after) == Expand(bp) + ExpandAll(after) by {
      assert ([bp] + after)[0] == bp && ([bp] + after)[1..] == after;
    }
    var e, o := Expand(bp), |ExpandAll(before)|;
    assert ExpandAll(bps) == ExpandAll(before) + e + ExpandAll(after);
    assert ExpandAll(bps)[o..o + |e|] == e;
  }

  /** Reads the base paths back from an expanded list: a block starts with
      its base path and is two entries long for "/" and three otherwise. */
  function BasePathsOf(paths: seq<string>): seq<string>
    decreases |paths|
  {
    if paths == [] then []
    else
      var width := if paths[0] == "/" then 2 else 3;
      var next := if |paths| < width then |paths| else width;
      [paths[0]] + BasePathsOf(paths[next..])
  }

  /** The expansion loses nothing: the base paths can be recovered from it. */
  lemma {:induction false} BasePathsOfExpandAll(bps: seq<string>)
    ensures BasePathsOf(ExpandAll(bps)) == bps
  {
    if bps != [] {
      var e := Expand(bps[0]);
      var paths := ExpandAll(bps);
      assert paths == e + ExpandAll(bps[1..]);
      assert paths[0] == bps[0];
      assert paths[|e|..] == ExpandAll(bps[1..]);
      BasePathsOfExpandAll(bps[1..]);
    }
  }

  /** What the whole list routes to the app: the URL paths that start with
      some base path (for base paths without wildcards). */
  lemma {:induction false} ExpandAllCovers(bps: seq<string>, s: string)
    requires forall i :: 0 <= i < |bps| ==> IsLiteral(bps[i])
    ensures Covers(ExpandAll(bps), s) <==> exists i :: 0 <= i < |bps| && bps[i] <= s
  {
    if bps != [] {
      CoversAppend(Expand(bps[0]), ExpandAll(bps[1..]), s);
      ExpandCovers(bps[0], s);
      ExpandAllCovers(bps[1..], s);
      if exists i :: 0 <= i < |bps| && bps[i] <= s {
        var i :| 0 <= i < |bps| && bps[i] <= s;
        if i > 0 {
          assert bps[1..][i - 1] == bps[i];
        }
      }
      if exists i :: 0 <= i < |bps[1..]| && bps[1..][i] <= s {
        var i :| 0 <= i < |bps[1..]| && bps[1..][i] <= s;
        assert bps[i + 1] == bps[1..][i];
      }
    }
  }

  /** `buildAASA(env)`. */
  function Build(env: Env): (doc: Aasa)
    ensures doc.applinks.apps == []
    ensures |doc.applinks.details| == 1
    ensures doc.applinks.details[0].appID == AppId(env)
    ensures doc.webcredentials.apps == [doc.applinks.details[0].appID]
    ensures doc.applinks.details[0].paths == ExpandAll(BasePaths(env))
    ensures BasePathsOf(doc.applinks.details[0].paths) == BasePaths(env)
    ensures var bps := BasePaths(env);
            var root := if "/" in bps then 1 else 0;
            |doc.applinks.details[0].paths| == 2 * root + 3 * (|bps| - root)
  {
    var appID := AppId(env);
    var bps := BasePaths(env);
    BasePathsOfExpandAll(bps);
    CountNoDuplicates(bps, "/");
    Aasa(AppLinks([], [Detail(appID, ExpandAll(bps))]), WebCredentials([appID]))
  }

  /** The `paths` of the document. */
  function DocumentPaths(env: Env): seq<string>
  {
    Build(env).applinks.details[0].paths
  }

  /** The document lists one block per base path, in base-path order: the
      block of base path `k` sits, whole, right after the blocks of the base
      paths before it. */
  lemma DocumentBlock(env: Env)
    ensures forall k :: 0 <= k < |BasePaths(env)| ==>
              |ExpandAll(BasePaths(env)[..k])| + |Expand(BasePaths(env)[k])| <= |DocumentPaths(env)| &&
              DocumentPaths(env)[|ExpandAll(BasePaths(env)[..k])|..|ExpandAll(BasePaths(env)[..k])| + |Expand(BasePaths(env)[k])|]
                == Expand(BasePaths(env)[k])
  {
    var bps := BasePaths(env);
    forall k | 0 <= k < |bps|
      ensures |ExpandAll(bps[..k])| + |Expand(bps[k])| <= |DocumentPaths(env)| &&
              DocumentPaths(env)[|ExpandAll(bps[..k])|..|ExpandAll(bps[..k])| + |Expand(bps[k])|] == Expand(bps[k])
    {
      ExpandAllBlock(bps, k);
    }
  }

  /** The default path needs neither trimming nor a leading '/', and has no ','. */
  lemma DefaultPathsShape()
    ensures ',' !in DefaultPaths && IsTrimmed(DefaultPaths)
    ensures DefaultPaths != "" && "/" <= DefaultPaths
  {
  }

  /** Without `UL_PATHS` (or with it empty) the only raw path is the default one. */
  lemma DefaultRawPaths(env: Env)
    requires env.ulPaths == None || env.ulPaths == Some("")
    ensures RawPaths(env) == [DefaultPaths]
  {
    var pieces := [DefaultPaths];
    DefaultPathsShape();
    assert Split(OrDefault(env.ulPaths, DefaultPaths), ',') == pieces by {
      assert OrDefault(env.ulPaths, DefaultPaths) == DefaultPaths;
      SplitWithoutSeparator(DefaultPaths, ',');
    }
    assert TrimNonEmpty(pieces) == pieces by {
      TrimIdentity(DefaultPaths);
      assert pieces[..0] == [] && pieces[0] == DefaultPaths;
      assert TrimNonEmpty(pieces) == TrimNonEmpty([]) + [DefaultPaths];
    }
  }

  /** Without `UL_PATHS` (or with it empty) the only base path is the default one. */
  lemma DefaultBasePaths(env: Env)
    requires env.ulPaths == None || env.ulPaths == Some("")
    ensures BasePaths(env) == [DefaultPaths]
  {
    DefaultRawPaths(env);
    DefaultPathsShape();
    TrimIdentity(DefaultPaths);
    assert NormalizeEntry(DefaultPaths) == DefaultPaths;
    PushedAllKept([DefaultPaths]);
    assert Pushed([DefaultPaths]) == [DefaultPaths];
    DedupNoDuplicates([DefaultPaths]);
  }

  /** Without `UL_PATHS` (or with it empty) the document lists "/callback" and its wildcards. */
  lemma DefaultDocumentPaths(env: Env)
    requires env.ulPaths == None || env.ulPaths == Some("")
    ensures DocumentPaths(env) == ["/callback", "/callback*", "/callback/*"]
  {
    assert DocumentPaths(env) == ExpandAll(BasePaths(env));
    DefaultBasePaths(env);
    assert ExpandAll([DefaultPaths]) == Expand(DefaultPaths) by {
      assert [DefaultPaths][1..] == [];
    }
    assert Expand(DefaultPaths) == ["/callback", "/callback*", "/callback/*"] by {
      ExpandExamples();
    }
  }

  /** The document routes to the app exactly the URL paths that start with a
      base path, provided `UL_PATHS` holds no wildcard characters. */
  lemma DocumentCovers(env: Env, s: string)
    requires env.ulPaths.Some? ==> IsLiteral(env.ulPaths.value)
    ensures Covers(DocumentPaths(env), s) <==> exists i :: 0 <= i < |BasePaths(env)| && BasePaths(env)[i] <= s
  {
    BasePathsLiteral(env);
    ExpandAllCovers(BasePaths(env), s);
  }
}
