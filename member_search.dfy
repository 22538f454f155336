/** The member search of the admin members page (frontend/src/admin/Member.jsx): the list
    getAllMembers returned, narrowed to the members whose name or email contains the search
    string, ignoring letter case. */
module MemberSearch {
  import Text
  import Catalog

  /** `member.name.toLowerCase().includes(search.toLowerCase()) || member.email…` */
  predicate Keeps(m: Catalog.MemberView, search: string) {
    Text.Contains(Text.ToLower(m.name), Text.ToLower(search))
    || Text.Contains(Text.ToLower(m.email), Text.ToLower(search))
  }

  /** `a` is `b` with some elements left out, the rest in their order. */
  predicate IsSubsequence<T(==)>(a: seq<T>, b: seq<T>)
    decreases |b|
  {
    if a == [] then true
    else if b == [] then false
    else if a[0] == b[0] then IsSubsequence(a[1..], b[1..])
    else IsSubsequence(a, b[1..])
  }

  /** `filteredMembers`: an order-preserving selection of the members holding exactly those
      the search keeps. */
  function FilterMembers(members: seq<Catalog.MemberView>, search: string): (r: seq<Catalog.MemberView>)
    ensures IsSubsequence(r, members)
    ensures forall m :: m in r <==> m in members && Keeps(m, search)
  {
    if members == [] then []
    else if Keeps(members[0], search) then [members[0]] + FilterMembers(members[1..], search)
    else FilterMembers(members[1..], search)
  }

  /** Each kept member appears as many times as in the list, every other member not at all. */
  lemma {:induction false} FilterMembersCounts(members: seq<Catalog.MemberView>, search: string,
                                               m: Catalog.MemberView)
    ensures multiset(FilterMembers(members, search))[m]
      == if Keeps(m, search) then multiset(members)[m] else 0
  {
    if members != [] {
      FilterMembersCounts(members[1..], search, m);
      assert members == [members[0]] + members[1..];
    }
  }

  /** An empty search keeps every member. */
  lemma {:induction false} EmptySearchKeepsAll(members: seq<Catalog.MemberView>)
    ensures FilterMembers(members, "") == members
  {
    if members != [] {
      assert Text.ToLower("") == "";
      Text.ContainsEmpty(Text.ToLower(members[0].name));
      EmptySearchKeepsAll(members[1..]);
    }
  }

  /** Two searches that differ only in letter case select the same members. */
  lemma {:induction false} SearchIgnoresCase(members: seq<Catalog.MemberView>, s: string, t: string)
    requires Text.ToLower(s) == Text.ToLower(t)
    ensures FilterMembers(members, s) == FilterMembers(members, t)
  {
    if members != [] {
      SearchIgnoresCase(members[1..], s, t);
    }
  }

  /** In particular, lower-casing the search first changes nothing. */
  lemma LowerCasedSearch(members: seq<Catalog.MemberView>, s: string)
    ensures FilterMembers(members, Text.ToLower(s)) == FilterMembers(members, s)
  {
    Text.ToLowerIdempotent(s);
    SearchIgnoresCase(members, Text.ToLower(s), s);
  }
}
