/** An organization's membership lists and the case-insensitive membership test that
    the SIG validator applies to every lead and chair. */
module Orgs {

  datatype Org = Org(admins: seq<string>, members: seq<string>)

  /** ASCII upper case to lower case; every other character is left as it is. */
  function LowerChar(c: char): (d: char)
    ensures 'A' <= c <= 'Z' ==> d as int == c as int + 32
    ensures !('A' <= c <= 'Z') ==> d == c
  {
    if 'A' <= c <= 'Z' then (c as int + 32) as char else c
  }

  function Lower(s: string): (r: string)
    ensures |r| == |s|
  {
    seq(|s|, i requires 0 <= i < |s| => LowerChar(s[i]))
  }

  /** Equality of two handles ignoring (ASCII) case. */
  predicate EqualFold(a: string, b: string)
  {
    Lower(a) == Lower(b)
  }

  /** Whether some entry of `handles` equals `h` ignoring case. */
  function ListedIgnoringCase(handles: seq<string>, h: string): (r: bool)
    ensures r <==> exists i :: 0 <= i < |handles| && EqualFold(handles[i], h)
    decreases |handles|
  {
    if handles == [] then false
    else EqualFold(handles[0], h) || ListedIgnoringCase(handles[1..], h)
  }

  /** Org.HasMember: the handle is an admin or a member of the org, ignoring case. */
  function HasMember(org: Org, h: string): (r: bool)
    ensures r <==> exists m :: (m in org.admins || m in org.members) && EqualFold(m, h)
  {
    ListedIgnoringCase(org.admins, h) || ListedIgnoringCase(org.members, h)
  }

  /** Membership does not depend on the case the handle is written in. */
  lemma HasMemberIgnoresCase(org: Org, h: string, k: string)
    requires EqualFold(h, k)
    ensures HasMember(org, h) == HasMember(org, k)
  {
  }

  /** The cases of the org tests: exact and differently-cased member and admin handles. */
  lemma HasMemberExamples()
    ensures var org := Org(["admin1", "admin2", "admin3"], ["member1", "member2", "member3"]);
            HasMember(org, "member1") && HasMember(org, "admin3") &&
            HasMember(org, "Member1") && HasMember(org, "Admin1")
    ensures HasMember(Org(["admin1", "admin2", "admin3"], ["Member1", "member2", "member3"]), "member1")
    ensures HasMember(Org(["Admin1", "admin2", "admin3"], ["member1", "member2", "member3"]), "admin1")
  {
    assert Lower("Member1") == Lower("member1");
    assert Lower("Admin1") == Lower("admin1");
  }
}
