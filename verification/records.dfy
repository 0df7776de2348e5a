/** The question/answer records loaded from the data file, and the lookups
    the page performs on the loaded list. */
module Records {
  import opened Wrappers
  import opened Decimal

  /** One record of the data file. `code` and `footer` are optional; the id
      is an integer that a JavaScript number holds exactly. */
  datatype Record = Record(
    id: SafeInteger,
    question: string,
    alt: string,
    answer: string,
    code: Option<string>,
    footer: Option<string>)

  /** Some record in `data` carries `id`. */
  predicate HasId(data: seq<Record>, id: int) {
    exists k :: 0 <= k < |data| && data[k].id == id
  }

  /** No two records share an id. */
  predicate UniqueIds(data: seq<Record>) {
    forall i, j :: 0 <= i < |data| && 0 <= j < |data| && data[i].id == data[j].id ==> i == j
  }

  /** `data.find(item => item.id === id)`: the first record with that id. */
  function Find(data: seq<Record>, id: int): (r: Option<Record>)
    ensures r.None? <==> !HasId(data, id)
    ensures r.Some? ==> r.value in data && r.value.id == id
    ensures r.Some? ==> exists k :: 0 <= k < |data| && data[k] == r.value && forall j :: 0 <= j < k ==> data[j].id != id
  {
    if data == [] then None
    else if data[0].id == id then Some(data[0])
    else
      var r := Find(data[1..], id);
      assert HasId(data, id) ==> HasId(data[1..], id) by {
        if HasId(data, id) {
          var k :| 0 <= k < |data| && data[k].id == id;
          assert data[1..][k - 1] == data[k];
        }
      }
      assert HasId(data[1..], id) ==> HasId(data, id) by {
        if HasId(data[1..], id) {
          var k :| 0 <= k < |data[1..]| && data[1..][k].id == id;
          assert data[k + 1] == data[1..][k];
        }
      }
      r
  }

  /** `Find` returns the earliest match, not merely some match. */
  lemma {:induction false} FindFirst(data: seq<Record>, k: nat)
    requires k < |data|
    requires forall j :: 0 <= j < k ==> data[j].id != data[k].id
    ensures Find(data, data[k].id) == Some(data[k])
  {
    if k > 0 {
      assert data[1..][k - 1] == data[k];
      FindFirst(data[1..], k - 1);
    }
  }

  /** The number of records in `data` that carry `id`. */
  function Occ(data: seq<Record>, id: int): (n: nat)
    ensures n <= |data|
    ensures n > 0 <==> HasId(data, id)
  {
    if data == [] then 0
    else
      assert HasId(data, id) <==> data[0].id == id || HasId(data[1..], id) by {
        if HasId(data, id) && data[0].id != id {
          var k :| 0 <= k < |data| && data[k].id == id;
          assert data[1..][k - 1] == data[k];
        }
        if HasId(data[1..], id) {
          var k :| 0 <= k < |data[1..]| && data[1..][k].id == id;
          assert data[k + 1] == data[1..][k];
        }
      }
      (if data[0].id == id then 1 else 0) + Occ(data[1..], id)
  }

  /** Counting distributes over concatenation. */
  lemma {:induction false} OccAppend(a: seq<Record>, b: seq<Record>, id: int)
    ensures Occ(a + b, id) == Occ(a, id) + Occ(b, id)
  {
    if a == [] {
      assert a + b == b;
    } else {
      assert (a + b)[0] == a[0];
      assert (a + b)[1..] == a[1..] + b;
      OccAppend(a[1..], b, id);
    }
  }

  /** With unique ids, an id that occurs occurs exactly once. */
  lemma {:induction false} UniqueOcc(data: seq<Record>, id: int)
    requires UniqueIds(data)
    ensures Occ(data, id) == if HasId(data, id) then 1 else 0
  {
    if data != [] {
      assert UniqueIds(data[1..]) by {
        forall i, j | 0 <= i < |data[1..]| && 0 <= j < |data[1..]| && data[1..][i].id == data[1..][j].id
          ensures i == j
        {
          assert data[i + 1].id == data[j + 1].id;
        }
      }
      UniqueOcc(data[1..], id);
    }
  }
}
