/** MtHelper.MetadataIsTrue: reads a flag from a string dictionary, storing the default
    (as "True" or "False") when the key is missing. */
module Helpers {
  import Paths

  const KeyVisible := "MT_VISIBLE"
  const KeyWireframeVisible := "MT_WIREFRAME_VISIBLE"

  /** A Dictionary<string, string> that callers share and MetadataIsTrue may add to. */
  class Metadata {
    var entries: map<string, string>

    constructor (entries: map<string, string>)
      ensures this.entries == entries
    {
      this.entries := entries;
    }
  }

  /** What MetadataIsTrue answers and what the dictionary holds afterwards. */
  function Lookup(entries: map<string, string>, key: string, defaultValue: bool): (bool, map<string, string>)
  {
    if key !in entries then (defaultValue, entries[key := Paths.BoolToString(defaultValue)])
    else (entries[key] == "True", entries)
  }

  method MetadataIsTrue(metadata: Metadata, key: string, defaultValue: bool) returns (r: bool)
    modifies metadata
    ensures (r, metadata.entries) == Lookup(old(metadata.entries), key, defaultValue)
  {
    if key !in metadata.entries {
      metadata.entries := metadata.entries[key := Paths.BoolToString(defaultValue)];
      return defaultValue;
    }
    return metadata.entries[key] == "True";
  }

  /** A present key is read, not written: the answer is whether it holds exactly "True". */
  lemma PresentKeyIsRead(entries: map<string, string>, key: string, defaultValue: bool)
    requires key in entries
    ensures Lookup(entries, key, defaultValue) == (entries[key] == "True", entries)
  {
  }

  /** A missing key is stored with the default, which is also the answer; no other key changes. */
  lemma MissingKeyStoresDefault(entries: map<string, string>, key: string, defaultValue: bool)
    requires key !in entries
    ensures var (r, after) := Lookup(entries, key, defaultValue);
      && r == defaultValue
      && after.Keys == entries.Keys + {key}
      && (after[key] == "True" <==> defaultValue)
      && forall k :: k in entries ==> after[k] == entries[k]
  {
  }

  /** Asking again, with any default, gives the same answer and changes nothing: the stored
      default reads back as itself. */
  lemma LookupIsStable(entries: map<string, string>, key: string, d1: bool, d2: bool)
    ensures var (r, after) := Lookup(entries, key, d1);
      Lookup(after, key, d2) == (r, after)
  {
  }
}
