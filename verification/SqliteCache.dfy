/**
 The SQLite cache (src/cache/sqlite_cache.cpp). The table is a map from row ids to messages;
 AUTOINCREMENT hands out ids above every id used before, and reads and removals go by
 ascending id. Statements are atomic.
 */
module SqliteCaching {
  import opened Delivery

  const INT_MAX: nat := 0x7FFF_FFFF

  predicate IsMin(m: nat, keys: set<nat>) {
    m in keys && forall k :: k in keys ==> m <= k
  }

  lemma {:induction false} MinExists(keys: set<nat>)
    requires keys != {}
    ensures exists m :: IsMin(m, keys)
    decreases |keys|
  {
    var k :| k in keys;
    if keys != {k} {
      var others := keys - {k};
      assert keys == others + {k};
      MinExists(others);
      var m: nat :| IsMin(m, others);
      assert IsMin(if k < m then k else m, keys);
    } else {
      assert IsMin(k, keys);
    }
  }

  /** The messages by ascending id: the queue the table stands for. */
  ghost function Contents(rows: map<nat, Message>): seq<Message>
    decreases |rows|
  {
    if rows.Keys == {} then []
    else
      MinExists(rows.Keys);
      var m: nat :| IsMin(m, rows.Keys);
      assert rows.Keys == (rows - {m}).Keys + {m};
      [rows[m]] + Contents(rows - {m})
  }

  lemma {:induction false} ContentsStep(rows: map<nat, Message>, m: nat)
    requires IsMin(m, rows.Keys)
    ensures Contents(rows) == [rows[m]] + Contents(rows - {m}) && |rows - {m}| < |rows|
  {
    assert rows.Keys == (rows - {m}).Keys + {m};
  }

  lemma {:induction false} ContentsEmpty(rows: map<nat, Message>)
    requires rows.Keys == {}
    ensures Contents(rows) == []
  {}

  /** INSERT with a fresh, larger id appends to the queue. */
  lemma {:induction false} ContentsInsert(rows: map<nat, Message>, id: nat, m: Message)
    requires forall k :: k in rows ==> k < id
    ensures Contents(rows[id := m]) == Contents(rows) + [m]
    decreases |rows|
  {
    hide Contents;
    if rows.Keys == {} {
      var after := rows[id := m];
      ContentsStep(after, id);
      ContentsEmpty(rows);
      ContentsEmpty(after - {id});
    } else {
      MinExists(rows.Keys);
      var k: nat :| IsMin(k, rows.Keys);
      ContentsStep(rows, k);
      ContentsStep(rows[id := m], k);
      assert rows[id := m] - {k} == (rows - {k})[id := m];
      ContentsInsert(rows - {k}, id, m);
      assert [rows[k]] + (Contents(rows - {k}) + [m]) == [rows[k]] + Contents(rows - {k}) + [m];
    }
  }

  /** SELECT id ... ORDER BY id LIMIT n. */
  ghost function Smallest(keys: set<nat>, n: nat): set<nat>
    decreases n
  {
    if n == 0 || keys == {} then {}
    else
      MinExists(keys);
      var m: nat :| IsMin(m, keys);
      {m} + Smallest(keys - {m}, n - 1)
  }

  lemma SmallestStep(keys: set<nat>, m: nat, n: nat)
    requires IsMin(m, keys) && n > 0
    ensures Smallest(keys, n) == {m} + Smallest(keys - {m}, n - 1)
  {}

  /** DELETE of the n smallest ids drops the first n messages. */
  lemma {:induction false} ContentsDelete(rows: map<nat, Message>, n: nat)
    ensures Contents(rows - Smallest(rows.Keys, n)) == Drop(Contents(rows), n)
    decreases n
  {
    hide Contents;
    if rows.Keys == {} {
      assert rows - {} == rows;
      ContentsEmpty(rows);
    } else if n == 0 {
      assert rows - {} == rows;
      MinExists(rows.Keys);
      var m: nat :| IsMin(m, rows.Keys);
      ContentsStep(rows, m);
    } else {
      hide Smallest;
      MinExists(rows.Keys);
      var m: nat :| IsMin(m, rows.Keys);
      ContentsStep(rows, m);
      SmallestStep(rows.Keys, m, n);
      var rest := rows - {m};
      assert rest.Keys == rows.Keys - {m};
      assert rows - Smallest(rows.Keys, n) == rest - Smallest(rest.Keys, n - 1);
      ContentsDelete(rest, n - 1);
    }
  }

  /** A column read back as a C string ends at the first NUL. */
  function CText(s: string): string {
    if |s| == 0 || s[0] == '\0' then "" else [s[0]] + CText(s[1..])
  }

  function ReadBack(m: Message): Message { Message(CText(m.topic), CText(m.payload)) }

  lemma {:induction false} CTextExact(s: string)
    ensures CText(s) == s <==> '\0' !in s
  {
    if |s| > 0 {
      CTextExact(s[1..]);
      assert s == [s[0]] + s[1..];
    }
  }

  /** What comes back of a text with a NUL in it is what stands before the first one. */
  lemma {:induction false} CTextCut(before: string, after: string)
    requires '\0' !in before
    ensures CText(before + "\0" + after) == before && CText(before) == before
    decreases |before|
  {
    if |before| > 0 {
      assert (before + "\0" + after)[1..] == before[1..] + "\0" + after;
      CTextCut(before[1..], after);
      assert before == [before[0]] + before[1..];
    }
  }

  /** Every message comes back unchanged if and only if none contains a NUL. */
  lemma ReadBackExact(q: seq<Message>)
    ensures (forall i :: 0 <= i < |q| ==> ReadBack(q[i]) == q[i])
            <==> (forall i :: 0 <= i < |q| ==> '\0' !in q[i].topic && '\0' !in q[i].payload)
  {
    forall i | 0 <= i < |q|
      ensures ReadBack(q[i]) == q[i] <==> '\0' !in q[i].topic && '\0' !in q[i].payload
    {
      CTextExact(q[i].topic);
      CTextExact(q[i].payload);
    }
  }

  function ReadBackAll(q: seq<Message>): seq<Message> {
    if |q| == 0 then [] else [ReadBack(q[0])] + ReadBackAll(q[1..])
  }

  lemma {:induction false} ReadBackStep(m: Message, q: seq<Message>)
    ensures ReadBackAll([m] + q) == [ReadBack(m)] + ReadBackAll(q)
  {
    hide ReadBack;
    assert ([m] + q)[1..] == q;
  }

  lemma {:induction false} ReadBackLast(q: seq<Message>, m: Message)
    ensures ReadBackAll(q + [m]) == ReadBackAll(q) + [ReadBack(m)]
    decreases |q|
  {
    hide ReadBack;
    if |q| == 0 {
      assert q + [m] == [m];
      assert ReadBackAll([m][1..]) == [];
    } else {
      assert (q + [m])[1..] == q[1..] + [m];
      ReadBackLast(q[1..], m);
    }
  }

  lemma {:induction false} ReadBackDrop(q: seq<Message>, n: nat)
    ensures |ReadBackAll(q)| == |q| && ReadBackAll(Drop(q, n)) == Drop(ReadBackAll(q), n)
    decreases |q|
  {
    hide ReadBack;
    if |q| > 0 {
      ReadBackDrop(q[1..], if n == 0 then 0 else n - 1);
      assert n > 0 ==> Drop(q, n) == Drop(q[1..], n - 1) && Drop(ReadBackAll(q), n) == Drop(ReadBackAll(q[1..]), n - 1);
    }
  }

  class SqliteCache {
    const ready: bool
    var rows: map<nat, Message>
    var nextId: nat

    ghost predicate Valid()
      reads this
    {
      forall k :: k in rows ==> k < nextId
    }

    /** The queue the table stands for. */
    ghost function Queue(): seq<Message>
      reads this
    {
      Contents(rows)
    }

    constructor (initialised: bool, stored: map<nat, Message>, next: nat)
      requires forall k :: k in stored ==> k < next
      ensures Valid() && ready == initialised && rows == stored
    {
      ready, rows, nextId := initialised, stored, next;
    }

    method Append(m: Message, succeeds: bool) returns (ok: bool)
      requires Valid()
      modifies this
      ensures Valid() && ok == (ready && succeeds)
      ensures Queue() == if ok then old(Queue()) + [m] else old(Queue())
    {
      hide Contents;
      if !ready || !succeeds {
        return false;
      }
      ContentsInsert(rows, nextId, m);
      rows := rows[nextId := m];
      nextId := nextId + 1;
      return true;
    }

    /** load_all: rows are stepped through by ascending id. A query that cannot be prepared or
        fails half way yields nothing. */
    method LoadAll(succeeds: bool) returns (messages: seq<Message>)
      requires Valid()
      ensures messages == if ready && succeeds then ReadBackAll(Queue()) else []
    {
      messages := [];
      if !ready || !succeeds {
        return;
      }
      assert ReadBackAll([]) == [];
      hide Contents, ReadBack, ReadBackAll;
      var left := rows;
      while left.Keys != {}
        invariant ReadBackAll(Queue()) == messages + ReadBackAll(Contents(left))
        decreases |left|
      {
        MinExists(left.Keys);
        var id :| id in left.Keys && IsMin(id, left.Keys);
        ContentsStep(left, id);
        ReadBackStep(left[id], Contents(left - {id}));
        messages := messages + [ReadBack(left[id])];
        left := left - {id};
      }
      ContentsEmpty(left);
    }

    /** remove_first. A count that does not fit the statement's int parameter is refused. */
    method RemoveFirst(count: nat, succeeds: bool) returns (ok: bool)
      requires Valid()
      modifies this
      ensures Valid() && ok == (ready && (count == 0 || (count <= 0x7FFF_FFFF && succeeds)))
      ensures Queue() == if ok then Drop(old(Queue()), count) else old(Queue())
    {
      hide Contents, Smallest;
      if !ready || count == 0 {
        return ready;
      }
      if count > INT_MAX || !succeeds {
        return false;
      }
      ContentsDelete(rows, count);
      var doomed := SelectSmallest(rows.Keys, count);
      rows := rows - doomed;
      return true;
    }
  }

  /** The subquery of the removal, row by row. */
  method SelectSmallest(keys: set<nat>, count: nat) returns (ids: set<nat>)
    ensures ids == Smallest(keys, count)
  {
    ids := {};
    var left, n := keys, count;
    while left != {} && n > 0
      invariant Smallest(keys, count) == ids + Smallest(left, n)
      decreases n
    {
      MinExists(left);
      var id :| id in left && IsMin(id, left);
      SmallestStep(left, id, n);
      ids := ids + {id};
      left := left - {id};
      n := n - 1;
    }
  }
}
