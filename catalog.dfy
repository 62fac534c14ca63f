/** The remote release catalog as the version manager uses it: choosing
    the release and the asset to install, and joining the release list
    with the local installation state for the `list` command. */
module Catalog {
  import opened Results

  datatype Asset = Asset(name: string, downloadUrl: string)

  /** One release of the catalog, identified by its tag. */
  datatype Release = Release(tag: string, assets: seq<Asset>)

  /** Rust's `str::contains`: `sub` occurs somewhere in `s`. */
  predicate Contains(s: string, sub: string)
    decreases |s|
  {
    if sub <= s then true
    else if s == [] then false
    else Contains(s[1..], sub)
  }

  lemma {:induction false} ContainsIffOccurs(s: string, sub: string)
    ensures Contains(s, sub) <==> exists i :: 0 <= i <= |s| && sub <= s[i..]
  {
    if sub <= s {
      assert s[0..] == s;
    } else if s == [] {
    } else {
      ContainsIffOccurs(s[1..], sub);
      if Contains(s, sub) {
        var i :| 0 <= i <= |s[1..]| && sub <= s[1..][i..];
        assert s[1..][i..] == s[i + 1..];
      } else {
        forall i | 0 <= i <= |s| ensures !(sub <= s[i..]) {
          if i > 0 {
            assert s[1..][i - 1..] == s[i..];
          }
        }
      }
    }
  }

  lemma {:induction false} ContainsAt(s: string, sub: string, i: nat)
    requires i <= |s| && sub <= s[i..]
    ensures Contains(s, sub)
  {
    if i > 0 && !(sub <= s) {
      assert s[1..][i - 1..] == s[i..];
      ContainsAt(s[1..], sub, i - 1);
    }
  }

  /** The asset filter of `download_version`: the name mentions both the
      platform and the architecture, in either order. */
  predicate IsCompatible(a: Asset)
  {
    Contains(a.name, "macos") && Contains(a.name, "arm64")
  }

  /** `releases.find(|r| r.tag_name == version)`: the first release whose
      tag is exactly `version`. */
  function FindRelease(releases: seq<Release>, version: string): (r: Option<Release>)
    ensures r.None? <==> forall i :: 0 <= i < |releases| ==> releases[i].tag != version
    ensures r.Some? ==> exists i :: (0 <= i < |releases| && releases[i] == r.value &&
      releases[i].tag == version && forall j :: 0 <= j < i ==> releases[j].tag != version)
  {
    if releases == [] then None
    else if releases[0].tag == version then Some(releases[0])
    else
      var r := FindRelease(releases[1..], version);
      assert forall i :: 1 <= i < |releases| ==> releases[i] == releases[1..][i - 1];
      r
  }

  /** `assets.find(..)` with the compatibility filter: the first compatible asset. */
  function FindAsset(assets: seq<Asset>): (r: Option<Asset>)
    ensures r.None? <==> forall i :: 0 <= i < |assets| ==> !IsCompatible(assets[i])
    ensures r.Some? ==> exists i :: (0 <= i < |assets| && assets[i] == r.value &&
      IsCompatible(assets[i]) && forall j :: 0 <= j < i ==> !IsCompatible(assets[j]))
  {
    if assets == [] then None
    else if IsCompatible(assets[0]) then Some(assets[0])
    else
      var r := FindAsset(assets[1..]);
      assert forall i :: 1 <= i < |assets| ==> assets[i] == assets[1..][i - 1];
      r
  }

  /** One line of the `list` command: a release tag, whether it is
      installed locally, and whether it is the version in use. */
  datatype RemoteVersion = RemoteVersion(version: string, isInstalled: bool, isDefault: bool)

  /** The `map` of `list_remote_versions` over the releases. */
  function Annotate(releases: seq<Release>, installed: seq<string>, current: Option<string>): (rows: seq<RemoteVersion>)
    ensures |rows| == |releases|
    ensures forall i :: 0 <= i < |rows| ==>
      && rows[i].version == releases[i].tag
      && (rows[i].isInstalled <==> releases[i].tag in installed)
      && (rows[i].isDefault <==> current == Some(releases[i].tag))
  {
    if releases == [] then []
    else
      var tag := releases[0].tag;
      var rest := Annotate(releases[1..], installed, current);
      assert forall i :: 1 <= i < |releases| ==> releases[i] == releases[1..][i - 1];
      [RemoteVersion(tag, tag in installed, current == Some(tag))] + rest
  }

  /** `list_remote_versions`: the catalog is fetched first, then the local
      listing (whose failure is passed on), while a failure to read the
      current version only means that no row is the default. */
  function ListRemote(catalog: Result<seq<Release>>, installed: Result<seq<string>>, current: Result<string>): (r: Result<seq<RemoteVersion>>)
    ensures catalog.Err? ==> r == Err(CatalogUnavailable)
    ensures catalog.Ok? && installed.Err? ==> r == Err(installed.error)
    ensures catalog.Ok? && installed.Ok? ==> r.Ok? && |r.value| == |catalog.value|
    ensures r.Ok? ==> forall i :: 0 <= i < |r.value| ==>
      && r.value[i].version == catalog.value[i].tag
      && (r.value[i].isInstalled <==> catalog.value[i].tag in installed.value)
      && (r.value[i].isDefault <==> current.Ok? && current.value == catalog.value[i].tag)
  {
    if catalog.Err? then Err(CatalogUnavailable)
    else if installed.Err? then Err(installed.error)
    else Ok(Annotate(catalog.value, installed.value, if current.Ok? then Some(current.value) else None))
  }

  /** With distinct tags, at most one row is marked as the default. */
  lemma AtMostOneDefault(releases: seq<Release>, installed: seq<string>, current: Option<string>, i: nat, j: nat)
    requires forall k, l :: 0 <= k < l < |releases| ==> releases[k].tag != releases[l].tag
    requires i < |releases| && j < |releases|
    requires Annotate(releases, installed, current)[i].isDefault
    requires Annotate(releases, installed, current)[j].isDefault
    ensures i == j
  {
    var rows := Annotate(releases, installed, current);
    assert releases[i].tag == releases[j].tag;
  }

  /** An install scenario: a release list with a single compatible asset,
      so that asset is the one chosen. */
  lemma ScenarioAssetChosen()
    ensures var a := Asset("sui-v1.2.0-macos-arm64.tgz", "https://example.invalid/sui-v1.2.0-macos-arm64.tgz");
      var catalog := [Release("v1.2.0", [a])];
      FindRelease(catalog, "v1.2.0") == Some(catalog[0]) && FindAsset(catalog[0].assets) == Some(a)
  {
    var name := "sui-v1.2.0-macos-arm64.tgz";
    assert "macos" <= name[11..];
    ContainsAt(name, "macos", 11);
    assert "arm64" <= name[17..];
    ContainsAt(name, "arm64", 17);
  }
}
