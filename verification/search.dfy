/**
 * What `findMany({ where: filters, orderBy: { createdAt: 'desc' } })` returns
 * over the evidence table: every row that agrees with each filter field that
 * is given, newest first. Rows with equal `createdAt` may come in any order.
 */
module EvidenceSearch {
  import opened EvidenceTypes

  /** An undefined filter field matches every row; a given one asks for equality. */
  predicate FieldMatches(want: Option<string>, have: Option<string>) {
    want.None? || have == want
  }

  /** The `where` clause: a conjunction over the given filter fields. */
  predicate Matches(r: EvidenceRecord, f: Filter) {
    && FieldMatches(f.organizationId, r.organizationId)
    && FieldMatches(f.assessmentId, r.assessmentId)
    && FieldMatches(f.questionId, r.questionId)
    && (f.uploadedBy.None? || r.uploadedBy == f.uploadedBy.value)
  }

  ghost predicate Distinct(rs: seq<EvidenceRecord>) {
    forall i, j :: 0 <= i < j < |rs| ==> rs[i] != rs[j]
  }

  /** `orderBy: { createdAt: 'desc' }`, with no tie-break. */
  ghost predicate NewestFirst(rs: seq<EvidenceRecord>) {
    forall i, j :: 0 <= i < j < |rs| ==> rs[i].createdAt >= rs[j].createdAt
  }

  /** `rs` is a list the query may return for `f` over the table `records`. */
  ghost predicate IsSearchResult(records: map<string, EvidenceRecord>, f: Filter, rs: seq<EvidenceRecord>) {
    && (forall r :: r in rs <==> r in records.Values && Matches(r, f))
    && Distinct(rs)
    && NewestFirst(rs)
  }

  /** Every non-empty finite set of rows has a newest row. */
  lemma {:induction false} NewestExists(s: set<EvidenceRecord>)
    requires s != {}
    ensures exists r :: r in s && forall x :: x in s ==> x.createdAt <= r.createdAt
    decreases |s|
  {
    var y :| y in s;
    if s != {y} {
      NewestExists(s - {y});
      var r :| r in s - {y} && forall x :: x in s - {y} ==> x.createdAt <= r.createdAt;
      if r.createdAt < y.createdAt {
        assert forall x :: x in s ==> x.createdAt <= y.createdAt;
      } else {
        assert forall x :: x in s ==> x.createdAt <= r.createdAt;
      }
    }
  }

  /** Putting a row no newer-than-it row precedes at the head keeps a list distinct and newest first. */
  lemma PrependNewest(r: EvidenceRecord, rest: seq<EvidenceRecord>)
    requires Distinct(rest) && NewestFirst(rest)
    requires r !in rest
    requires forall x :: x in rest ==> x.createdAt <= r.createdAt
    ensures Distinct([r] + rest) && NewestFirst([r] + rest)
  {
  }

  /** The rows of `s` as a list, newest first; ties are broken by an unspecified choice. */
  ghost function NewestFirstList(s: set<EvidenceRecord>): (rs: seq<EvidenceRecord>)
    ensures forall r :: r in rs <==> r in s
    ensures Distinct(rs)
    ensures NewestFirst(rs)
    decreases |s|
  {
    if s == {} then []
    else
      NewestExists(s);
      var r :| r in s && forall x :: x in s ==> x.createdAt <= r.createdAt;
      var rest := NewestFirstList(s - {r});
      PrependNewest(r, rest);
      [r] + rest
  }

  /** A list without repetitions has as many elements as the set of its elements. */
  lemma {:induction false} DistinctLength(rs: seq<EvidenceRecord>)
    requires Distinct(rs)
    ensures |set r | r in rs| == |rs|
  {
    if rs != [] {
      var tail := rs[1..];
      assert Distinct(tail) by {
        forall i, j | 0 <= i < j < |tail| ensures tail[i] != tail[j] {
          assert tail[i] == rs[i + 1] && tail[j] == rs[j + 1];
        }
      }
      DistinctLength(tail);
      assert (set r | r in rs) == {rs[0]} + (set r | r in tail);
      assert rs[0] !in tail by {
        forall j | 0 <= j < |tail| ensures tail[j] != rs[0] {
          assert tail[j] == rs[j + 1];
        }
      }
    }
  }

  /** A table keyed by each row's own id holds as many distinct rows as ids. */
  lemma {:induction false} KeyedByIdValues(records: map<string, EvidenceRecord>)
    requires forall id :: id in records ==> records[id].id == id
    ensures |records.Values| == |records|
    decreases |records|
  {
    if records != map[] {
      var id :| id in records;
      var rest := records - {id};
      KeyedByIdValues(rest);
      forall v | v in records.Values ensures v in rest.Values + {records[id]} {
        var k :| k in records && records[k] == v;
        if k != id {
          assert rest[k] == v;
        }
      }
      assert records.Values == rest.Values + {records[id]};
      assert records[id] !in rest.Values;
      assert |rest| == |records| - 1 by {
        assert rest.Keys == records.Keys - {id};
      }
    }
  }

  /**
   * A search with no filter field set returns the whole table: every row,
   * each once.
   */
  lemma EmptyFilterReturnsAll(records: map<string, EvidenceRecord>, rs: seq<EvidenceRecord>)
    requires forall id :: id in records ==> records[id].id == id
    requires IsSearchResult(records, NoFilter, rs)
    ensures forall id :: id in records ==> records[id] in rs
    ensures forall r :: r in rs ==> r.id in records && records[r.id] == r
    ensures |rs| == |records|
  {
    DistinctLength(rs);
    KeyedByIdValues(records);
    assert (set r | r in rs) == records.Values;
  }
}
