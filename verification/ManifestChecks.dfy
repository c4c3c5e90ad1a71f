/** The path check every manifest must pass to be opened. */
module ManifestChecks {
  import opened Wrappers
  import opened Paths
  import opened VaultTypes
  import opened Stores
  import opened Trees
  import opened Manifests

  /** `validate_manifest_paths`: every path canonical, none twice. */
  method ValidateManifestPaths(entries: seq<Entry>) returns (r: Result<(), VaultError>)
    ensures r.Ok? <==> PathsValid(entries)
  {
    hide Normalize;
    var seen: set<string> := {};
    for i := 0 to |entries|
      invariant seen == PathSet(entries[..i])
      invariant UniquePaths(entries[..i]) && forall j :: 0 <= j < i ==> Canonical(entries[j].path)
    {
      var e := entries[i];
      assert e in entries;
      assert entries[..i + 1] == entries[..i] + [e];
      InPush(entries[..i], e);
      var normalized := Normalize(e.path);
      if normalized.Err? || normalized.value != e.path {
        return Err(BadPath);
      }
      if e.path in seen {
        assert !UniquePaths(entries) by {
          var earlier :| earlier in entries[..i] && earlier.path == e.path;
          var j :| 0 <= j < i && entries[j] == earlier;
        }
        return Err(AlreadyExists);
      }
      seen := seen + {e.path};
    }
    assert entries[..|entries|] == entries;
    return Ok(());
  }

  /** Every manifest a valid vault holds passes the check made when it is opened again. */
  lemma ReachableManifestsReopen(entries: seq<Entry>, ledger: Ledger, collided: bool)
    requires EntriesOk(entries, ledger, collided) && TreeOk(TreeOf(entries, ledger))
    ensures PathsValid(entries)
  {
    hide TreeOf, UniquePaths, Normalize, IsDescendant;
    TreeAt(entries, ledger);
  }
}
