/**
 * The fold-state store: category path -> open, and the saved form of it,
 * the comma-joined list of the open paths.
 */
module FoldState {
  import opened Text

  type Folds = map<string, bool>

  /** The paths whose fold is open. */
  ghost function OpenKeys(f: Folds): set<string>
  {
    set k | k in f && f[k]
  }

  /** `ks` lists the set `s`, each element once, in some order. */
  ghost predicate Listing(ks: seq<string>, s: set<string>)
  {
    NoDuplicates(ks) && forall k :: k in ks <==> k in s
  }

  /**
   * The tokens a saved string is read back as: none for the empty string,
   * else its comma-separated pieces, which join back into it.
   */
  function Tokens(saved: string): (r: seq<string>)
    ensures forall i :: 0 <= i < |r| ==> ',' !in r[i]
    ensures saved == "" <==> r == []
    ensures Join(r, ',') == saved
  {
    if saved == "" then [] else JoinSplit(saved, ','); Split(saved, ',')
  }

  /**
   * The effect of loading `saved`: each comma-separated token is opened,
   * nothing is closed, and an empty string changes nothing.
   */
  function Loaded(f: Folds, saved: string): (r: Folds)
    ensures saved == "" ==> r == f
    ensures forall k :: k in r <==> k in f || k in Tokens(saved)
    ensures forall k :: k in Tokens(saved) ==> r[k]
    ensures forall k :: k in f && k !in Tokens(saved) ==> r[k] == f[k]
  {
    f + map t | t in Tokens(saved) :: true
  }

  /** Loading the saved form of a fold map leaves it unchanged, when no path contains ','. */
  lemma LoadSaveRoundTrip(f: Folds, ks: seq<string>)
    requires Listing(ks, OpenKeys(f))
    requires forall k :: k in f ==> ',' !in k
    ensures Loaded(f, Join(ks, ',')) == f
  {
    var saved := Join(ks, ',');
    if saved != "" {
      assert ks != [];
      forall i | 0 <= i < |ks| ensures ',' !in ks[i] {
        assert ks[i] in OpenKeys(f);
      }
      SplitJoin(ks, ',');
      assert Tokens(saved) == ks;
      forall k | k in Tokens(saved) ensures k in f && f[k] {
        assert k in OpenKeys(f);
      }
    }
    var r := Loaded(f, saved);
    assert r.Keys == f.Keys;
    forall k | k in f ensures r[k] == f[k] {
      if k in Tokens(saved) {
        assert k in OpenKeys(f);
      }
    }
  }
}
