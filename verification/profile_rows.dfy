/**
 * The list reconciliation of a profile update.  A user's EducationalInfo
 * (or Course) rows are brought in line with the list the client sent: the
 * user's stored rows whose id the list does not mention are deleted, an
 * item with an id rewrites that row when the user owns it, and an item
 * without an id creates a row.  Every written column is `item.column || null`.
 */
module ProfileRows {
  import opened Common
  import opened Store

  /** One element of the incoming list: an optional id and the columns it gives. */
  datatype Item = Item(id: Option<int>, fields: map<string, Value>)

  /** JavaScript truthiness of a column value. */
  predicate Truthy(v: Value) {
    match v
    case Null => false
    case Str(s) => s != ""
    case Num(n) => n != 0
    case Flag(b) => b
  }

  /** The item names an existing row: its id is present and truthy (0 means "create"). */
  predicate NamesRow(item: Item) {
    item.id.Some? && item.id.value != 0
  }

  /** The columns written for an item: each given truthy value, otherwise NULL. */
  function Stored(item: Item, columns: set<string>): (vs: map<string, Value>)
    ensures vs.Keys == columns
    ensures forall c :: c in columns ==> (Truthy(vs[c]) || vs[c] == Null)
    ensures forall c :: c in columns && c in item.fields && Truthy(item.fields[c]) ==> vs[c] == item.fields[c]
    ensures forall c :: c in columns && (c !in item.fields || !Truthy(item.fields[c])) ==> vs[c] == Null
  {
    map c | c in columns :: if c in item.fields && Truthy(item.fields[c]) then item.fields[c] else Null
  }

  /** The ids the list mentions (`items.filter(i => i.id).map(i => i.id)`). */
  function IncomingIds(items: seq<Item>): (ids: set<int>)
    ensures forall j :: 0 <= j < |items| && NamesRow(items[j]) ==> items[j].id.value in ids
    ensures forall i :: i in ids ==> exists j :: 0 <= j < |items| && NamesRow(items[j]) && items[j].id.value == i
  {
    set j | 0 <= j < |items| && NamesRow(items[j]) :: items[j].id.value
  }

  /** The delete step: the user's rows whose id the list does not mention are removed. */
  function Prune(t: map<Id, Row>, userId: Id, incoming: set<int>): (r: map<Id, Row>)
    ensures forall k :: k in r <==> (k in t && (t[k].userId != userId || k in incoming))
    ensures forall k :: k in r ==> r[k] == t[k]
  {
    map k | k in t && (t[k].userId != userId || k in incoming) :: t[k]
  }

  /** The table and the next auto-increment id. */
  datatype Table = Table(rows: map<Id, Row>, next: Id)

  /** One item of the loop: update the named row where the user owns it, or create a row. */
  function Apply(t: Table, userId: Id, item: Item, columns: set<string>): (r: Table)
    ensures r.rows.Keys == if NamesRow(item) then t.rows.Keys else t.rows.Keys + {t.next}
    ensures r.next == if NamesRow(item) then t.next else t.next + 1
  {
    if NamesRow(item) then
      var i := item.id.value;
      if i in t.rows && t.rows[i].userId == userId then Table(t.rows[i := Row(userId, Stored(item, columns))], t.next)
      else t
    else
      Table(t.rows[t.next := Row(userId, Stored(item, columns))], t.next + 1)
  }

  /** The items applied one after another, from the first. */
  function ApplyAll(t: Table, userId: Id, items: seq<Item>, columns: set<string>): Table
  {
    if items == [] then t else Apply(ApplyAll(t, userId, items[..|items| - 1], columns), userId, items[|items| - 1], columns)
  }

  /** The whole reconciliation: the delete step, then every item in order. */
  function Reconciled(t: Table, userId: Id, items: seq<Item>, columns: set<string>): Table {
    ApplyAll(Table(Prune(t.rows, userId, IncomingIds(items)), t.next), userId, items, columns)
  }

  /** How many items create a row. */
  function Creates(items: seq<Item>): nat {
    if items == [] then 0 else Creates(items[..|items| - 1]) + (if NamesRow(items[|items| - 1]) then 0 else 1)
  }

  /**
   * The loop of the handler: prune, then visit the items in order.  The
   * result is the reconciliation the functions above define.
   */
  method Reconcile(t: Table, userId: Id, items: seq<Item>, columns: set<string>) returns (r: Table)
    ensures r == Reconciled(t, userId, items, columns)
  {
    var incoming := IncomingIds(items);
    r := Table(Prune(t.rows, userId, incoming), t.next);
    var j := 0;
    while j < |items|
      invariant 0 <= j <= |items|
      invariant r == ApplyAll(Table(Prune(t.rows, userId, incoming), t.next), userId, items[..j], columns)
    {
      assert items[..j + 1][..j] == items[..j];
      r := Apply(r, userId, items[j], columns);
      j := j + 1;
    }
    assert items[..j] == items;
  }

  // ---------------------------------------------------------------------
  // What the reconciliation promises
  // ---------------------------------------------------------------------

  /** One item: keys below the counter stay so, other users' rows are untouched, a new row is the user's. */
  lemma ApplyFrame(t: Table, userId: Id, item: Item, columns: set<string>)
    requires KeysBelow(t.rows, t.next)
    ensures var r := Apply(t, userId, item, columns);
      && KeysBelow(r.rows, r.next)
      && (forall k :: k in t.rows && t.rows[k].userId != userId ==> r.rows[k] == t.rows[k])
      && (forall k :: k in t.rows && t.rows[k].userId == userId ==> r.rows[k].userId == userId)
      && (forall k :: k in r.rows && k !in t.rows ==> k == t.next && r.rows[k].userId == userId)
  {
  }

  /**
   * Applying items keeps every key, hands out one new id per creating item,
   * gives every new row to the user, and never touches other users' rows.
   */
  lemma {:induction false} ApplyAllFrame(t: Table, userId: Id, items: seq<Item>, columns: set<string>)
    requires KeysBelow(t.rows, t.next)
    ensures var r := ApplyAll(t, userId, items, columns);
      && KeysBelow(r.rows, r.next)
      && r.next == t.next + Creates(items)
      && t.rows.Keys <= r.rows.Keys
      && (forall k :: t.next <= k < r.next ==> k in r.rows)
      && (forall k :: k in t.rows && t.rows[k].userId != userId ==> r.rows[k] == t.rows[k])
      && (forall k :: k in t.rows && t.rows[k].userId == userId ==> r.rows[k].userId == userId)
      && (forall k :: k in r.rows && k !in t.rows ==> t.next <= k && r.rows[k].userId == userId)
  {
    if items != [] {
      var init := items[..|items| - 1];
      ApplyAllFrame(t, userId, init, columns);
      var mid := ApplyAll(t, userId, init, columns);
      ApplyFrame(mid, userId, items[|items| - 1], columns);
    }
  }

  /**
   * After reconciliation: rows of other users are unchanged, the user's rows
   * that the list does not mention are gone, the user's mentioned rows stay,
   * and the new rows are the next ids, one per item without an id.
   */
  lemma ReconcileFrame(t: Table, userId: Id, items: seq<Item>, columns: set<string>)
    requires KeysBelow(t.rows, t.next)
    ensures var r := Reconciled(t, userId, items, columns);
      && KeysBelow(r.rows, r.next)
      && r.next == t.next + Creates(items)
      && (forall k :: k in t.rows && t.rows[k].userId != userId ==> k in r.rows && r.rows[k] == t.rows[k])
      && (forall k :: k in t.rows && t.rows[k].userId == userId && k !in IncomingIds(items) ==> k !in r.rows)
      && (forall k :: k in t.rows && t.rows[k].userId == userId && k in IncomingIds(items) ==> k in r.rows)
      && (forall k :: k in r.rows && k !in t.rows ==> t.next <= k && r.rows[k].userId == userId)
  {
    var p := Table(Prune(t.rows, userId, IncomingIds(items)), t.next);
    ApplyAllFrame(p, userId, items, columns);
  }

  /**
   * An owned row named by the list ends up holding the columns of the last
   * item that names it; creations never land on it.
   */
  lemma {:induction false} LastItemWins(t: Table, userId: Id, items: seq<Item>, columns: set<string>, j: int)
    requires KeysBelow(t.rows, t.next)
    requires 0 <= j < |items| && NamesRow(items[j])
    requires items[j].id.value in t.rows && t.rows[items[j].id.value].userId == userId
    requires forall m :: j < m < |items| ==> items[m].id != items[j].id
    ensures items[j].id.value in ApplyAll(t, userId, items, columns).rows
    ensures ApplyAll(t, userId, items, columns).rows[items[j].id.value] == Row(userId, Stored(items[j], columns))
  {
    var init := items[..|items| - 1];
    ApplyAllFrame(t, userId, init, columns);
    if j < |items| - 1 {
      LastItemWins(t, userId, init, columns, j);
    }
  }

  /** The same for the whole reconciliation: the delete step keeps every row the list names. */
  lemma ReconcileUpdates(t: Table, userId: Id, items: seq<Item>, columns: set<string>, j: int)
    requires KeysBelow(t.rows, t.next)
    requires 0 <= j < |items| && NamesRow(items[j])
    requires items[j].id.value in t.rows && t.rows[items[j].id.value].userId == userId
    requires forall m :: j < m < |items| ==> items[m].id != items[j].id
    ensures items[j].id.value in Reconciled(t, userId, items, columns).rows
    ensures Reconciled(t, userId, items, columns).rows[items[j].id.value] == Row(userId, Stored(items[j], columns))
  {
    var p := Table(Prune(t.rows, userId, IncomingIds(items)), t.next);
    LastItemWins(p, userId, items, columns, j);
  }
}
