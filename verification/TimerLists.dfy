/** `std::set` of (expiration, address) pairs, as the strictly increasing sequence that iteration yields. */
module TimerLists {

  type Addr = nat

  datatype Entry = Entry(when: int, addr: Addr)

  predicate Less(a: Entry, b: Entry) {
    a.when < b.when || (a.when == b.when && a.addr < b.addr)
  }

  predicate Sorted(s: seq<Entry>) {
    forall i, j :: 0 <= i < j < |s| ==> Less(s[i], s[j])
  }

  /** The position of the first entry that is not less than `e`. */
  function LowerBound(s: seq<Entry>, e: Entry): (k: nat)
    ensures k <= |s|
    ensures forall i :: 0 <= i < k ==> Less(s[i], e)
    ensures k < |s| ==> !Less(s[k], e)
    ensures Sorted(s) ==> forall i :: k <= i < |s| ==> !Less(s[i], e)
  {
    if s == [] || !Less(s[0], e) then 0 else 1 + LowerBound(s[1..], e)
  }

  predicate Found(s: seq<Entry>, e: Entry) {
    var k := LowerBound(s, e);
    k < |s| && s[k] == e
  }

  function Emplace(s: seq<Entry>, e: Entry): seq<Entry> {
    var k := LowerBound(s, e);
    if Found(s, e) then s else s[..k] + [e] + s[k..]
  }

  function Erase(s: seq<Entry>, e: Entry): seq<Entry> {
    var k := LowerBound(s, e);
    if Found(s, e) then s[..k] + s[k + 1..] else s
  }

  lemma FoundExact(s: seq<Entry>, e: Entry)
    requires Sorted(s)
    ensures Found(s, e) <==> e in s
  {
  }

  lemma InsertSorted(s: seq<Entry>, k: nat, e: Entry)
    requires Sorted(s) && k <= |s|
    requires forall i :: 0 <= i < k ==> Less(s[i], e)
    requires forall i :: k <= i < |s| ==> Less(e, s[i])
    ensures Sorted(s[..k] + [e] + s[k..])
  {
    var t := s[..k] + [e] + s[k..];
    forall i, j | 0 <= i < j < |t|
      ensures Less(t[i], t[j])
    {
      assert t[i] == if i < k then s[i] else if i == k then e else s[i - 1];
      assert t[j] == if j < k then s[j] else if j == k then e else s[j - 1];
    }
  }

  lemma InsertedMembers(s: seq<Entry>, k: nat, e: Entry)
    requires k <= |s|
    ensures forall x :: x in s[..k] + [e] + s[k..] <==> x in s || x == e
    ensures (s[..k] + [e] + s[k..])[0] == if k == 0 then e else s[0]
  {
    assert s == s[..k] + s[k..];
  }

  lemma EmplaceExact(s: seq<Entry>, e: Entry)
    requires Sorted(s)
    ensures Sorted(Emplace(s, e))
    ensures forall x :: x in Emplace(s, e) <==> x in s || x == e
    ensures |Emplace(s, e)| == if e in s then |s| else |s| + 1
    ensures Emplace(s, e)[0] == if s == [] || Less(e, s[0]) then e else s[0]
  {
    FoundExact(s, e);
    var k := LowerBound(s, e);
    if !Found(s, e) {
      InsertSorted(s, k, e);
      InsertedMembers(s, k, e);
    }
  }

  lemma EraseFound(s: seq<Entry>, e: Entry)
    requires Found(s, e)
    ensures |Erase(s, e)| == |s| - 1
  {
  }

  lemma EraseExact(s: seq<Entry>, e: Entry)
    requires Sorted(s)
    ensures Sorted(Erase(s, e))
    ensures forall x :: x in Erase(s, e) <==> x in s && x != e
    ensures |Erase(s, e)| == if e in s then |s| - 1 else |s|
  {
  }
}
