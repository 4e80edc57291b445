/** The hash table as plain values: rows of pairs that stand for a finite map. */
module TableRows {
  import opened Entries

  datatype Pair = Pair(key: Key, data: Ptr)

  /** A table as plain values: one row of key-data pairs for each bucket. */
  type Rows = seq<seq<Pair>>

  /** The key to what this module closes: a predicate of the form `forall d :: OpenRows(d) ==> P` is passed
      on as a whole by proofs that do not mention the key, and `assert OpenRows(0)` looks into it. */
  ghost predicate OpenRows(d: nat) {
    d >= 0
  }

  ghost predicate HasKey(row: seq<Pair>, k: Key) {
    exists i :: 0 <= i < |row| && row[i].key == k
  }

  /** The row holds exactly the part of `m` that hashes to bucket `b` of `size`, each key once. */
  ghost predicate RowOk(row: seq<Pair>, b: nat, size: nat, m: map<Key, Ptr>)
    requires size > 0
  {
    && (forall i :: 0 <= i < |row| ==> Slot(row[i].key, size) == b && row[i].key in m && m[row[i].key] == row[i].data)
    && (forall i, j :: 0 <= i < j < |row| ==> row[i].key != row[j].key)
    && (forall k :: k in m && Slot(k, size) == b ==> HasKey(row, k))
  }

  /** The rows from bucket `b` on hold their parts of the map `m`. */
  ghost predicate RowsFrom(rows: Rows, b: nat, m: map<Key, Ptr>)
    requires b <= |rows|
    decreases |rows| - b
  {
    b < |rows| ==> RowOk(rows[b], b, |rows|, m) && RowsFrom(rows, b + 1, m)
  }

  /** The rows hold exactly the map `m`: every pair in the bucket its key hashes to, every key once. Closed. */
  ghost predicate Represents(rows: Rows, m: map<Key, Ptr>) {
    |rows| > 0 && forall d: nat {:trigger OpenRows(d)} :: OpenRows(d) ==> RowsFrom(rows, 0, m)
  }

  lemma {:induction false} RowsFromEach(rows: Rows, b: nat, m: map<Key, Ptr>)
    requires b <= |rows|
    ensures RowsFrom(rows, b, m) <==> forall c :: b <= c < |rows| ==> RowOk(rows[c], c, |rows|, m)
    decreases |rows| - b
  {
    if b < |rows| {
      RowsFromEach(rows, b + 1, m);
    }
  }

  lemma {:induction false} RepresentsAt(rows: Rows, m: map<Key, Ptr>, h: nat)
    requires Represents(rows, m) && h < |rows|
    ensures RowOk(rows[h], h, |rows|, m)
  {
    assert OpenRows(0);
    RowsFromEach(rows, 0, m);
  }

  /** Changing the row of bucket `h` together with the map at one of its keys. */
  lemma RowChange(rows: Rows, m: map<Key, Ptr>, h: nat, row: seq<Pair>, m': map<Key, Ptr>, k: Key)
    requires Represents(rows, m) && h < |rows| && Slot(k, |rows|) == h
    requires forall x :: x != k ==> (x in m' <==> x in m) && (x in m ==> m'[x] == m[x])
    requires RowOk(row, h, |rows|, m')
    ensures Represents(rows[h := row], m')
  {
    var rows' := rows[h := row];
    forall c | 0 <= c < |rows|
      ensures RowOk(rows'[c], c, |rows|, m')
    {
      RepresentsAt(rows, m, c);
    }
    RowsFromEach(rows', 0, m');
  }

  lemma PushRepresents(rows: Rows, m: map<Key, Ptr>, k: Key, data: Ptr)
    requires Represents(rows, m) && k !in m
    ensures var h := Slot(k, |rows|); Represents(rows[h := [Pair(k, data)] + rows[h]], m[k := data])
  {
    var h := Slot(k, |rows|);
    var row := [Pair(k, data)] + rows[h];
    RepresentsAt(rows, m, h);
    forall x | x in m[k := data] && Slot(x, |rows|) == h
      ensures HasKey(row, x)
    {
      if x == k {
        assert row[0].key == k;
      } else {
        var i :| 0 <= i < |rows[h]| && rows[h][i].key == x;
        assert row[i + 1].key == x;
      }
    }
    RowChange(rows, m, h, row, m[k := data], k);
  }

  /** `rows'` is `rows` with a new pair in front of one bucket: for an int key from 0 up to 2^32 the one of its
      remainder, for a negative one that of the unsigned word it stands for, and for a string that of
      its number in base 131. */
  ghost predicate PutInFront(rows: Rows, rows': Rows, k: Key, data: Ptr) {
    && |rows'| == |rows| > 0
    && exists h :: 0 <= h < |rows| && rows' == rows[h := [Pair(k, data)] + rows[h]]
                   && (k.IntKey? && 0 <= k.i < WORD ==> h == k.i % |rows|)
                   && (k.IntKey? && -0x8000_0000 <= k.i < 0 ==> h == (k.i + WORD) % |rows|)
                   && (k.StrKey? ==> h == Base131(k.s) % WORD % |rows|)
  }

  lemma PushInFront(rows: Rows, k: Key, data: Ptr)
    requires |rows| > 0
    ensures var h := Slot(k, |rows|); PutInFront(rows, rows[h := [Pair(k, data)] + rows[h]], k, data)
  {
    var h := Slot(k, |rows|);
    if k.StrKey? {
      StringCodeIsBase131(k.s);
    }
    assert rows[h := [Pair(k, data)] + rows[h]] == rows[h := [Pair(k, data)] + rows[h]];
  }

  lemma CutRepresents(rows: Rows, m: map<Key, Ptr>, h: nat, j: nat)
    requires Represents(rows, m) && h < |rows| && j < |rows[h]|
    ensures Represents(rows[h := rows[h][..j] + rows[h][j + 1..]], m - {rows[h][j].key})
  {
    var k := rows[h][j].key;
    var row := rows[h][..j] + rows[h][j + 1..];
    RepresentsAt(rows, m, h);
    assert forall i :: 0 <= i < |row| ==> row[i] == rows[h][if i < j then i else i + 1];
    forall x | x in m - {k} && Slot(x, |rows|) == h
      ensures HasKey(row, x)
    {
      var i :| 0 <= i < |rows[h]| && rows[h][i].key == x;
      assert row[if i < j then i else i - 1].key == x;
    }
    RowChange(rows, m, h, row, m - {k}, k);
  }

  /** What removing the pair at position `j` of its row means for the whole table. */
  lemma CutFacts(rows: Rows, m: map<Key, Ptr>, k: Key, j: nat)
    requires Represents(rows, m) && var h := Slot(k, |rows|); j < |rows[h]| && rows[h][j].key == k
    ensures var h := Slot(k, |rows|); Represents(rows[h := rows[h][..j] + rows[h][j + 1..]], m - {k})
    ensures k in m && |m - {k}| == |m| - 1
    ensures var h := Slot(k, |rows|); forall i, j :: 0 <= i < j < |rows[h]| ==> rows[h][i].key != rows[h][j].key
  {
    var h := Slot(k, |rows|);
    RepresentsAt(rows, m, h);
    CutRepresents(rows, m, h, j);
    assert m.Keys == (m - {k}).Keys + {k};
  }

  lemma SetRepresents(rows: Rows, m: map<Key, Ptr>, h: nat, j: nat, data: Ptr)
    requires Represents(rows, m) && h < |rows| && j < |rows[h]|
    ensures var k := rows[h][j].key;
            Represents(rows[h := rows[h][j := Pair(k, data)]], m[k := data])
  {
    var k := rows[h][j].key;
    var row := rows[h][j := Pair(k, data)];
    RepresentsAt(rows, m, h);
    forall x | x in m[k := data] && Slot(x, |rows|) == h
      ensures HasKey(row, x)
    {
      var i :| 0 <= i < |rows[h]| && rows[h][i].key == x;
      assert row[i].key == x;
    }
    RowChange(rows, m, h, row, m[k := data], k);
  }

  lemma SetFacts(rows: Rows, m: map<Key, Ptr>, h: nat, j: nat, data: Ptr)
    requires Represents(rows, m) && h < |rows| && j < |rows[h]|
    ensures var k := rows[h][j].key;
            k in m && |m[k := data]| == |m| && Represents(rows[h := rows[h][j := Pair(k, data)]], m[k := data])
    ensures forall i, j :: 0 <= i < j < |rows[h]| ==> rows[h][i].key != rows[h][j].key
  {
    SetRepresents(rows, m, h, j, data);
    RepresentsAt(rows, m, h);
    var k := rows[h][j].key;
    assert m[k := data].Keys == m.Keys;
  }

  /** The map that a row spells out. */
  ghost function RowMap(row: seq<Pair>): map<Key, Ptr> {
    if row == [] then map[]
    else var last := row[|row| - 1]; RowMap(row[..|row| - 1])[last.key := last.data]
  }

  /** The part of `m` in the first `b` buckets of `size`. */
  ghost function Below(m: map<Key, Ptr>, size: nat, b: nat): map<Key, Ptr>
    requires size > 0
  {
    map k | k in m && Slot(k, size) < b :: m[k]
  }

  lemma BelowEnds(m: map<Key, Ptr>, size: nat)
    requires size > 0
    ensures Below(m, size, 0) == map[] && Below(m, size, size) == m
  {
  }

  lemma {:induction false} RowMapKeys(row: seq<Pair>)
    requires forall i, j :: 0 <= i < j < |row| ==> row[i].key != row[j].key
    ensures forall k :: k in RowMap(row) <==> HasKey(row, k)
    ensures forall i :: 0 <= i < |row| ==> row[i].key in RowMap(row) && RowMap(row)[row[i].key] == row[i].data
  {
    if row != [] {
      var init, last := row[..|row| - 1], row[|row| - 1];
      RowMapKeys(init);
      forall k
        ensures k in RowMap(row) <==> HasKey(row, k)
      {
        assert HasKey(init, k) ==> HasKey(row, k) by {
          if HasKey(init, k) {
            var i :| 0 <= i < |init| && init[i].key == k;
            assert row[i].key == k;
          }
        }
        assert HasKey(row, k) ==> k == last.key || HasKey(init, k) by {
          if HasKey(row, k) {
            var i :| 0 <= i < |row| && row[i].key == k;
            assert i < |init| ==> init[i].key == k;
          }
        }
        assert row[|row| - 1].key == last.key;
      }
      forall i | 0 <= i < |row|
        ensures row[i].key in RowMap(row) && RowMap(row)[row[i].key] == row[i].data
      {
        assert i < |init| ==> init[i] == row[i];
      }
    }
  }

  /** The row of bucket `b` completes the part of the map below it. */
  lemma {:induction false} BelowNext(rows: Rows, m: map<Key, Ptr>, b: nat)
    requires Represents(rows, m) && b < |rows|
    ensures Below(m, |rows|, b + 1) == Below(m, |rows|, b) + RowMap(rows[b])
    ensures forall i :: 0 <= i < |rows[b]| ==> rows[b][i].key !in Below(m, |rows|, b)
    ensures rows[b] == [] <==> Below(m, |rows|, b + 1) == Below(m, |rows|, b)
    ensures rows[b] != [] ==> m != map[]
    ensures forall i, j :: 0 <= i < j < |rows[b]| ==> rows[b][i].key != rows[b][j].key
  {
    RepresentsAt(rows, m, b);
    RowMapKeys(rows[b]);
    forall k | k in m && Slot(k, |rows|) == b
      ensures k in RowMap(rows[b]) && RowMap(rows[b])[k] == m[k]
    {
      var i :| 0 <= i < |rows[b]| && rows[b][i].key == k;
    }
    if rows[b] != [] {
      assert rows[b][0].key in m && rows[b][0].key in Below(m, |rows|, b + 1);
    }
  }

  lemma RowMapNext(m: map<Key, Ptr>, row: seq<Pair>, j: nat)
    requires j < |row|
    ensures m + RowMap(row[..j + 1]) == (m + RowMap(row[..j]))[row[j].key := row[j].data]
  {
    assert row[..j + 1][..j] == row[..j];
  }
}
