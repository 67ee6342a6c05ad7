/**
 * The in-memory building store (lib/buildings.ts): a map from generated
 * ids to building records, filled by `createBuilding` and read by
 * `getBuilding`.
 */
module Buildings {
  import opened Wrappers
  import opened Text
  import Materials

  datatype Coordinates = Coordinates(x: string, y: string, z: string)

  /** `screenshotDataUrl?: string | null`: the property may be missing, be
      `null`, or hold a data URL. */
  datatype Screenshot = Missing | Null | DataUrl(url: string)

  /** `Omit<Building, "id">`: what a caller hands to `createBuilding`. */
  datatype BuildingFields = BuildingFields(
    name: string,
    coordinates: Coordinates,
    schematicFileName: string,
    materialsFileName: string,
    screenshotDataUrl: Screenshot,
    materials: seq<Materials.MaterialRow>)

  datatype Building = Building(
    id: string,
    name: string,
    coordinates: Coordinates,
    schematicFileName: string,
    materialsFileName: string,
    screenshotDataUrl: Screenshot,
    materials: seq<Materials.MaterialRow>)

  /** `{ ...building, id }`: the fields with the id attached. */
  function WithId(fields: BuildingFields, id: string): (record: Building) {
    Building(id, fields.name, fields.coordinates, fields.schematicFileName,
             fields.materialsFileName, fields.screenshotDataUrl, fields.materials)
  }

  /** The record without its id. */
  function FieldsOf(record: Building): (fields: BuildingFields) {
    BuildingFields(record.name, record.coordinates, record.schematicFileName,
                   record.materialsFileName, record.screenshotDataUrl, record.materials)
  }

  /** Attaching an id keeps every other field, and a record is exactly its
      fields plus its id. */
  lemma WithIdKeepsFields(fields: BuildingFields, id: string, record: Building)
    ensures WithId(fields, id).id == id && FieldsOf(WithId(fields, id)) == fields
    ensures WithId(FieldsOf(record), record.id) == record
  {
  }

  /** The id prefix. */
  const IdPrefix: string := "build-"

  /** `s.slice(start, end)` for non-negative bounds: both are clamped to the
      length of `s`. */
  function Slice(s: string, start: nat, end: nat): (r: string)
    ensures var lo, hi := (if start <= |s| then start else |s|), (if end <= |s| then end else |s|);
      && |r| == (if lo <= hi then hi - lo else 0)
      && lo + |r| <= |s| && r == s[lo..lo + |r|]
  {
    var b := if end <= |s| then end else |s|;
    var a := if start <= b then start else b;
    s[a..b]
  }

  /** `generateId`: `build-`, the clock reading in base 36, `-`, and at most
      six base-36 digits of the random fraction. `now` is `Date.now()` and
      `randomText` is `Math.random().toString(36)` (`0.` and the digits). */
  function GenerateId(now: nat, randomText: string): (id: string)
    ensures StartsWith(id, IdPrefix)
    ensures var stamp := ToRadix(now, 36);
      && |IdPrefix| + |stamp| + 1 <= |id| <= |IdPrefix| + |stamp| + 1 + 6
      && id[|IdPrefix|..|IdPrefix| + |stamp|] == stamp
      && id[|IdPrefix| + |stamp|] == '-'
      && FromRadix(id[|IdPrefix|..|IdPrefix| + |stamp|], 36) == now
  {
    var stamp := ToRadix(now, 36);
    var id := IdPrefix + stamp + "-" + Slice(randomText, 2, 8);
    assert id[..|IdPrefix|] == IdPrefix;
    assert id[|IdPrefix|..|IdPrefix| + |stamp|] == stamp;
    FromToRadix(now, 36);
    id
  }

  /** `buildingStore` with `createBuilding` and `getBuilding`. */
  class BuildingStore {
    var entries: map<string, Building>

    /** Every record is stored under its own id. */
    ghost predicate Valid()
      reads this
    {
      forall key :: key in entries ==> entries[key].id == key
    }

    /** The entry for `id`, if any. */
    function Lookup(id: string): (r: Option<Building>)
      reads this
      ensures r.Some? <==> id in entries
      ensures r.Some? ==> r.value == entries[id]
    {
      if id in entries then Some(entries[id]) else None
    }

    constructor ()
      ensures Valid()
      ensures entries == map[]
    {
      entries := map[];
    }

    /** `createBuilding`, with the generated id passed in: store the fields
        under `id` (replacing any record already there) and return the record. */
    method CreateBuilding(fields: BuildingFields, id: string) returns (record: Building)
      requires Valid()
      modifies this
      ensures Valid()
      ensures record.id == id && FieldsOf(record) == fields
      ensures entries == old(entries)[id := record]
      ensures Lookup(id) == Some(record)
      ensures forall key :: key != id ==> Lookup(key) == old(Lookup(key))
    {
      record := WithId(fields, id);
      entries := entries[id := record];
    }

    /** `getBuilding`: the record stored under `id`, or `null` (None). */
    method GetBuilding(id: string) returns (r: Option<Building>)
      requires Valid()
      ensures r.Some? <==> id in entries
      ensures r.Some? ==> r.value == entries[id] && r.value.id == id
    {
      if id in entries {
        r := Some(entries[id]);
      } else {
        r := None;
      }
    }
  }

  /** Creating a record and then looking its id up gives the record back,
      whatever the store held before. */
  method CreateThenGet(store: BuildingStore, fields: BuildingFields, id: string)
      returns (record: Building, found: Option<Building>)
    requires store.Valid()
    modifies store
    ensures found == Some(record) && record == WithId(fields, id)
  {
    record := store.CreateBuilding(fields, id);
    found := store.GetBuilding(id);
  }
}
