/**
 * The records the invite-link refresh reads and writes: group records and
 * category records from the store, and the summary record it writes back.
 * An attribute that the store may omit is an `Option`; `None` is JavaScript's
 * `undefined`.
 */
module Records {
  import opened Wrappers

  /** `Publishable` is tested with `=== true`: `false` is `IsFalse`, and anything else, missing included, is `NotBoolean`. */
  datatype Flag = IsTrue | IsFalse | NotBoolean

  datatype Group = Group(
    sk: string,
    name: string,
    domain: Option<string>,
    category: Option<string>,
    publishable: Flag,
    inviteCode: Option<string>,
    totalMembers: Option<int>)

  datatype Category = Category(sk: string, name: Option<string>)

  /** An invite-link summary record; `categoryName == None` means the attribute is absent. */
  datatype Summary = Summary(
    pk: string,
    sk: string,
    domainName: Option<string>,
    inviteCodes: seq<string>,
    updated: string,
    categoryName: Option<string>)

  /** The fixed partition key of every summary record. */
  const InviteLinksPk: string := "WHATSAPP#INVITELINKS"

  /** JavaScript truthiness of an optional string: present and non-empty. */
  predicate Truthy(s: Option<string>) {
    s.Some? && s.value != ""
  }

  /** `TotalMembers || 0`. */
  function Members(g: Group): int {
    match g.totalMembers
    case Some(n) => n
    case None => 0
  }

  /** A string-valued attribute as a template literal prints it. */
  function Render(s: Option<string>): string {
    s.GetOr("undefined")
  }

  /** One invite entry, `SK|Name|InviteCode`. */
  function Entry(g: Group): string {
    g.sk + "|" + g.name + "|" + Render(g.inviteCode)
  }

  function Entries(gs: seq<Group>): (r: seq<string>)
    ensures |r| == |gs|
    ensures forall i :: 0 <= i < |gs| ==> r[i] == Entry(gs[i])
  {
    seq(|gs|, i requires 0 <= i < |gs| => Entry(gs[i]))
  }
}
