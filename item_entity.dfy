/** The status-based item record of the in-memory store (`src/domain/entities`): an
    object whose public fields the update use case assigns in place. */
module ItemEntity {
  import opened Common

  datatype Status = Available | Unavailable

  /** The fields of an entity object at one moment. `description` may be absent, as the
      create request leaves it optional. */
  datatype ItemRecord = ItemRecord(id: string, name: string, description: Option<string>,
                                   status: Status, createdAt: Timestamp, updatedAt: Timestamp)

  class Item {
    var id: string
    var name: string
    var description: Option<string>
    var status: Status
    var createdAt: Timestamp
    var updatedAt: Timestamp

    constructor (id: string, name: string, description: Option<string>, status: Status,
                 createdAt: Timestamp, updatedAt: Timestamp)
      ensures Record() == ItemRecord(id, name, description, status, createdAt, updatedAt)
    {
      this.id := id;
      this.name := name;
      this.description := description;
      this.status := status;
      this.createdAt := createdAt;
      this.updatedAt := updatedAt;
    }

    function Record(): ItemRecord
      reads this
    {
      ItemRecord(id, name, description, status, createdAt, updatedAt)
    }
  }

  function IdsOf(items: seq<Item>): (r: seq<string>)
    reads items
    ensures |r| == |items| && forall i :: 0 <= i < |items| ==> r[i] == items[i].id
  {
    seq(|items|, i requires 0 <= i < |items| reads items => items[i].id)
  }

  function Records(items: seq<Item>): (r: seq<ItemRecord>)
    reads items
    ensures |r| == |items| && forall i :: 0 <= i < |items| ==> r[i] == items[i].Record()
  {
    seq(|items|, i requires 0 <= i < |items| reads items => items[i].Record())
  }

  /** `items.findIndex(item => item.id === id)`. */
  function IndexOfId(items: seq<Item>, id: string): (r: int)
    reads items
    ensures -1 <= r < |items|
    ensures r >= 0 ==> items[r].id == id && forall j :: 0 <= j < r ==> items[j].id != id
    ensures r < 0 ==> forall j :: 0 <= j < |items| ==> items[j].id != id
  {
    FindIndex(IdsOf(items), (x: string) => x == id)
  }

  /** The five seed items (`initialItems`); their uuids and creation time are inputs. */
  function SeedRecords(ids: seq<string>, now: Timestamp): seq<ItemRecord>
    requires |ids| == 5
  {
    [ ItemRecord(ids[0], "Macbook Air", Some("Chip M1"), Available, now, now),
      ItemRecord(ids[1], "Projector", Some("4K resolution"), Unavailable, now, now),
      ItemRecord(ids[2], "iPhone", Some("SE2"), Available, now, now),
      ItemRecord(ids[3], "iPad", Some("Gen 8"), Available, now, now),
      ItemRecord(ids[4], "Wireless headphones", Some("Noise cancelling"), Unavailable, now, now) ]
  }

  /** Builds the seed objects. */
  method InitialItems(ids: seq<string>, now: Timestamp) returns (items: seq<Item>)
    requires |ids| == 5
    ensures Records(items) == SeedRecords(ids, now)
    ensures forall i :: 0 <= i < |items| ==> fresh(items[i])
  {
    var seed := SeedRecords(ids, now);
    items := [];
    for i := 0 to 5
      invariant |items| == i
      invariant forall j :: 0 <= j < i ==> fresh(items[j]) && items[j].Record() == seed[j]
    {
      var d := seed[i];
      var item := new Item(d.id, d.name, d.description, d.status, d.createdAt, d.updatedAt);
      items := items + [item];
    }
  }
}
