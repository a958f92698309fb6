/**
 The response headers relayed to the caller: the upstream's header entries,
 in order, minus a fixed exclusion set compared on the lower-cased name.
 Each kept entry is written into an object, so when a name occurs twice
 (as `set-cookie` can) the later value replaces the earlier one.
 */
module ResponseHeaders {
  import opened JsText

  type Entry = (string, string)

  const EXCLUDED: seq<string> := [
    "content-encoding", "transfer-encoding", "connection", "strict-transport-security"
  ]

  /** `[...].includes(key.toLowerCase())`. */
  predicate IsExcluded(name: string) {
    Lower(name) in EXCLUDED
  }

  /** No entry after position `i` carries the same name as entry `i`. */
  predicate IsLastOfName(entries: seq<Entry>, i: int)
    requires 0 <= i < |entries|
  {
    forall j :: i < j < |entries| ==> entries[j].0 != entries[i].0
  }

  /**
   The object the loop fills, entry by entry: a kept entry is written under
   its name, replacing what an earlier entry with that name left there.
   */
  function Relayed(entries: seq<Entry>): map<string, string>
    decreases |entries|
  {
    if entries == [] then map[]
    else
      var prev := Relayed(entries[..|entries| - 1]);
      var (key, value) := entries[|entries| - 1];
      if IsExcluded(key) then prev else prev[key := value]
  }

  /** The names of the entries that are not excluded. */
  function KeptNames(entries: seq<Entry>): set<string> {
    set i | 0 <= i < |entries| && !IsExcluded(entries[i].0) :: entries[i].0
  }

  /** A name is relayed exactly when some entry carries it and it is not excluded. */
  lemma {:induction false} RelayedKeys(entries: seq<Entry>)
    ensures Relayed(entries).Keys == KeptNames(entries)
    ensures forall k :: k in Relayed(entries) ==> !IsExcluded(k)
    decreases |entries|
  {
    if entries != [] {
      var n := |entries| - 1;
      var init := entries[..n];
      RelayedKeys(init);
      var extra := if IsExcluded(entries[n].0) then {} else {entries[n].0};
      assert KeptNames(entries) == KeptNames(init) + extra by {
        forall k | k in KeptNames(entries) ensures k in KeptNames(init) + extra {
          var i :| 0 <= i < |entries| && !IsExcluded(entries[i].0) && entries[i].0 == k;
          if i < n { assert init[i] == entries[i]; }
        }
        forall k | k in KeptNames(init) ensures k in KeptNames(entries) {
          var i :| 0 <= i < n && !IsExcluded(init[i].0) && init[i].0 == k;
          assert entries[i] == init[i];
        }
      }
    }
  }

  /** A relayed name holds the value of the last entry carrying it. */
  lemma {:induction false} RelayedLast(entries: seq<Entry>, i: nat)
    requires i < |entries| && !IsExcluded(entries[i].0) && IsLastOfName(entries, i)
    ensures entries[i].0 in Relayed(entries) && Relayed(entries)[entries[i].0] == entries[i].1
    decreases |entries|
  {
    var n := |entries| - 1;
    if i < n {
      var init := entries[..n];
      assert init[i] == entries[i];
      assert IsLastOfName(init, i);
      RelayedLast(init, i);
      assert entries[n].0 != entries[i].0;
    }
  }

  /** When the names are distinct, every entry that is not excluded is relayed with its value. */
  lemma RelayedDistinct(entries: seq<Entry>, i: nat)
    requires forall a, b :: 0 <= a < b < |entries| ==> entries[a].0 != entries[b].0
    requires i < |entries| && !IsExcluded(entries[i].0)
    ensures entries[i].0 in Relayed(entries) && Relayed(entries)[entries[i].0] == entries[i].1
  {
    RelayedLast(entries, i);
  }

  /** The loop over `apiResponse.headers.entries()` that fills `responseHeaders`. */
  method CopyResponseHeaders(entries: seq<Entry>) returns (headers: map<string, string>)
    ensures headers == Relayed(entries)
  {
    headers := map[];
    for i := 0 to |entries|
      invariant headers == Relayed(entries[..i])
    {
      var (key, value) := entries[i];
      assert entries[..i + 1][..i] == entries[..i];
      if !IsExcluded(key) {
        headers := headers[key := value];
      }
    }
    assert entries[..|entries|] == entries;
  }
}
