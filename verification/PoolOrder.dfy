/** The key of one channel pool, and the order in which a multi-rail batch visits
    its pools. The source keeps groups in a std::map keyed by (rail, endpoint), so
    the order is that of std::pair over size_t and std::string. */
module PoolOrder {

  datatype PoolId = PoolId(rail: nat, endpoint: string)

  /** operator< on std::string. */
  predicate StringLess(a: string, b: string) {
    if b == "" then false
    else if a == "" then true
    else if a[0] != b[0] then a[0] < b[0]
    else StringLess(a[1..], b[1..])
  }

  /** operator< on std::pair<size_t, std::string>. */
  predicate Less(p: PoolId, q: PoolId) {
    p.rail < q.rail || (p.rail == q.rail && StringLess(p.endpoint, q.endpoint))
  }

  lemma {:induction false} StringLessTransitive(a: string, b: string, c: string)
    requires StringLess(a, b) && StringLess(b, c)
    ensures StringLess(a, c)
  {
    if a != "" && a[0] == b[0] && b[0] == c[0] {
      StringLessTransitive(a[1..], b[1..], c[1..]);
    }
  }

  lemma {:induction false} StringLessTrichotomy(a: string, b: string)
    ensures StringLess(a, b) || a == b || StringLess(b, a)
    ensures !(StringLess(a, b) && StringLess(b, a))
    ensures !StringLess(a, a)
  {
    if a != "" {
      StringLessTrichotomy(a[1..], if b == "" then "" else b[1..]);
      assert b != "" ==> b == [b[0]] + b[1..];
      assert a == [a[0]] + a[1..];
    }
  }

  lemma LessTransitive(p: PoolId, q: PoolId, r: PoolId)
    requires Less(p, q) && Less(q, r)
    ensures Less(p, r)
  {
    if p.rail == q.rail && q.rail == r.rail {
      StringLessTransitive(p.endpoint, q.endpoint, r.endpoint);
    }
  }

  /** The map key order is a strict total order, so any two groups are comparable. */
  lemma LessTrichotomy(p: PoolId, q: PoolId)
    ensures Less(p, q) || p == q || Less(q, p)
    ensures !(Less(p, q) && Less(q, p))
    ensures !Less(p, p)
  {
    StringLessTrichotomy(p.endpoint, q.endpoint);
    StringLessTrichotomy(p.endpoint, p.endpoint);
  }

  /** A pool that is not below any other pool of a non-empty set. */
  lemma {:induction false} Highest(pools: set<PoolId>) returns (top: PoolId)
    requires pools != {}
    ensures top in pools
    ensures forall q | q in pools :: !Less(top, q)
  {
    var p :| p in pools;
    if pools == {p} {
      LessTrichotomy(p, p);
      return p;
    }
    var rest := Highest(pools - {p});
    top := if Less(rest, p) then p else rest;
    forall q | q in pools ensures !Less(top, q) {
      LessTrichotomy(p, rest);
      LessTrichotomy(p, p);
      if Less(rest, p) && Less(p, q) {
        LessTransitive(rest, p, q);
      }
    }
  }
}
