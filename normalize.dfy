/** Identity normalisation: every fetched record becomes a person whose
    display name joins the first and last names with one space and whose
    cover is the one image asset the app imports. */
module Normalize {
  import opened Model

  /** The imported cover image every person shares. */
  const CoverAsset: string := "../src/images/cover.jpeg"

  /** The template literal `${first_name} ${last_name}`. */
  function DisplayName(first: string, last: string): (name: string)
    ensures |name| == |first| + 1 + |last|
    ensures name[..|first|] == first && name[|first|] == ' ' && name[|first| + 1..] == last
  {
    first + " " + last
  }

  /** Splits a display name at its first space (the inverse of DisplayName). */
  function SplitName(name: string): (string, string) {
    var k := IndexOf(name, ' ');
    if k == -1 then (name, "") else (name[..k], name[k + 1..])
  }

  /** A first name without a space is recovered, with the last name, from the
      display name. */
  lemma NameRoundTrip(first: string, last: string)
    requires ' ' !in first
    ensures SplitName(DisplayName(first, last)) == (first, last)
  {
    var name := DisplayName(first, last);
    var k := IndexOf(name, ' ');
    assert name[..|first| + 1][|first|] == ' ';
    assert forall j :: 0 <= j < |first| ==> name[j] == first[j] by {
      forall j | 0 <= j < |first| ensures name[j] == first[j] {
        assert name[..|first|][j] == name[j];
      }
    }
    assert forall j :: 0 <= j < k ==> name[..k][j] == name[j];
    assert k == |first|;
  }

  function ToPerson(u: RawUser): Person {
    Person(u.id, u.uid, DisplayName(u.firstName, u.lastName), u.avatar, u.email, CoverAsset)
  }

  function RawIds(raw: seq<RawUser>): seq<int> {
    seq(|raw|, i requires 0 <= i < |raw| => raw[i].id)
  }

  /** `usersResult.map(...)`: one person per record, in record order; id, uid,
      avatar and email are carried over, the name is the display name and the
      cover is the shared asset. */
  function Normalize(raw: seq<RawUser>): (ps: seq<Person>)
    ensures |ps| == |raw| && PersonIds(ps) == RawIds(raw)
    ensures forall i :: 0 <= i < |raw| ==>
      ps[i].uid == raw[i].uid && ps[i].avatar == raw[i].avatar && ps[i].email == raw[i].email &&
      ps[i].cover == CoverAsset && ps[i].name == DisplayName(raw[i].firstName, raw[i].lastName)
  {
    seq(|raw|, i requires 0 <= i < |raw| => ToPerson(raw[i]))
  }
}
