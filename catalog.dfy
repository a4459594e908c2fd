/**
  Catalog indexing: the package list response becomes the set of package
  ids and the map from display name to the comma-joined ids carrying it.
*/
module Catalog {
  import opened Config
  import Strings

  /** The ids that occur in the response; a repeated id is one member. */
  function CatalogIds(entries: seq<CatalogEntry>): (ids: set<string>)
    ensures forall i :: 0 <= i < |entries| ==> entries[i].id in ids
    ensures forall id :: id in ids ==> exists i :: 0 <= i < |entries| && entries[i].id == id
  {
    set e | e in entries :: e.id
  }

  /** The display names that occur in the response. */
  function DisplayNames(entries: seq<CatalogEntry>): set<string>
  {
    set e | e in entries :: e.name
  }

  /** The ids of the entries named `name`, in response order. */
  function IdsNamed(entries: seq<CatalogEntry>, name: string): seq<string>
    decreases |entries|
  {
    if entries == [] then []
    else
      var last := entries[|entries| - 1];
      IdsNamed(entries[..|entries| - 1], name) + (if last.name == name then [last.id] else [])
  }

  /** Each display name mapped to its ids in response order, joined by ','. */
  function NameIndex(entries: seq<CatalogEntry>): (index: map<string, string>)
    ensures index.Keys == DisplayNames(entries)
  {
    map n | n in DisplayNames(entries) :: Strings.Join(IdsNamed(entries, n), ',')
  }

  /** A name has ids exactly when some entry carries it. */
  lemma {:induction false} IdsNamedNonEmpty(entries: seq<CatalogEntry>, name: string)
    ensures IdsNamed(entries, name) != [] <==> name in DisplayNames(entries)
    decreases |entries|
  {
    if entries != [] {
      var init := entries[..|entries| - 1];
      IdsNamedNonEmpty(init, name);
      assert entries == init + [entries[|entries| - 1]];
      assert DisplayNames(entries) == DisplayNames(init) + {entries[|entries| - 1].name};
    }
  }

  /** Every id listed under a name belongs to an entry with that name. */
  lemma {:induction false} IdsNamedSound(entries: seq<CatalogEntry>, name: string, k: nat)
    requires k < |IdsNamed(entries, name)|
    ensures CatalogEntry(IdsNamed(entries, name)[k], name) in entries
    decreases |entries|
  {
    var init := entries[..|entries| - 1];
    if k < |IdsNamed(init, name)| {
      IdsNamedSound(init, name, k);
    }
  }

  /** One more entry: its name gets the id appended after a ',' or, when new, the bare id. */
  lemma NameIndexSnoc(entries: seq<CatalogEntry>, e: CatalogEntry)
    ensures NameIndex(entries + [e]) ==
      NameIndex(entries)[e.name := if e.name in NameIndex(entries) then NameIndex(entries)[e.name] + "," + e.id else e.id]
  {
    var all := entries + [e];
    var before := NameIndex(entries);
    var v := if e.name in before then before[e.name] + "," + e.id else e.id;
    var updated := before[e.name := v];
    DisplayNamesSnoc(entries, e);
    forall n | n in DisplayNames(all)
      ensures NameIndex(all)[n] == updated[n]
    {
      IdsNamedSnoc(entries, e, n);
      if n == e.name {
        IdsNamedNonEmpty(entries, n);
        Strings.JoinSnoc(IdsNamed(entries, n), e.id, ',');
        assert NameIndex(all)[n] == Strings.Join(IdsNamed(entries, n) + [e.id], ',');
      } else {
        assert IdsNamed(all, n) == IdsNamed(entries, n);
        assert n in before;
        assert updated[n] == before[n];
      }
    }
    assert NameIndex(all).Keys == updated.Keys;
  }

  /** One more entry adds its name to the display names. */
  lemma DisplayNamesSnoc(entries: seq<CatalogEntry>, e: CatalogEntry)
    ensures DisplayNames(entries + [e]) == DisplayNames(entries) + {e.name}
  {
    var all := entries + [e];
    forall n | n in DisplayNames(all) ensures n in DisplayNames(entries) + {e.name} {
      var x :| x in all && x.name == n;
      if x != e { assert x in entries; }
    }
    forall n | n in DisplayNames(entries) ensures n in DisplayNames(all) {
      var x :| x in entries && x.name == n;
      assert x in all;
    }
    assert e in all;
  }

  /** One more entry adds its id to the end of its own name's ids only. */
  lemma IdsNamedSnoc(entries: seq<CatalogEntry>, e: CatalogEntry, name: string)
    ensures IdsNamed(entries + [e], name) == IdsNamed(entries, name) + (if e.name == name then [e.id] else [])
  {
    assert (entries + [e])[..|entries|] == entries;
  }

  /** Duplicate display names keep all their ids: the stored hint splits back into them. */
  lemma NameIndexHint(entries: seq<CatalogEntry>, name: string)
    requires name in NameIndex(entries)
    requires forall e :: e in entries ==> ',' !in e.id
    ensures Strings.Split(NameIndex(entries)[name], ',') == IdsNamed(entries, name)
  {
    IdsNamedNonEmpty(entries, name);
    forall k | 0 <= k < |IdsNamed(entries, name)|
      ensures ',' !in IdsNamed(entries, name)[k]
    {
      IdsNamedSound(entries, name, k);
    }
    Strings.SplitJoin(IdsNamed(entries, name), ',');
  }

  /**
    The indexing loop: inserts every id into the set and, per entry, either
    starts the name's value with the id or appends "," and the id.
  */
  method IndexCatalog(entries: seq<CatalogEntry>) returns (ids: set<string>, names: map<string, string>)
    ensures ids == CatalogIds(entries)
    ensures names == NameIndex(entries)
  {
    ids := {};
    names := map[];
    for i := 0 to |entries|
      invariant ids == CatalogIds(entries[..i])
      invariant names == NameIndex(entries[..i])
    {
      var entry := entries[i];
      ids := ids + {entry.id};
      if entry.name in names {
        names := names[entry.name := names[entry.name] + "," + entry.id];
      } else {
        names := names[entry.name := entry.id];
      }
      assert entries[..i + 1] == entries[..i] + [entry];
      NameIndexSnoc(entries[..i], entry);
    }
    assert entries[..|entries|] == entries;
  }
}
