// A ciphertext opens under its own row only (oto_mcp/credentials_store.py, `_aad`): the text it is
// bound to tells the row, as long as the parts of an identity keep to their separators.

module VaultBinding {
  import opened Options
  import opened Texts
  import opened Decimal
  import opened Vault

  predicate NoColon(s: string) {
    Lacks(s, ':')
  }

  /** Subjects, kinds, connectors and identifiers hold no `:`, but for the labels of platform
      rows, which have no account. */
  predicate Separable(id: Id) {
    && NoColon(id.connector)
    && match id.owner
       case User(sub) => NoColon(sub)
       case Member(_, sub) => NoColon(sub)
       case Shared(kind, ident) =>
         NoColon(kind) && if kind == "platform" then id.account == "" else NoColon(ident)
  }

  // What follows the kind of the entity.
  function Tail(id: Id): string {
    id.connector + if id.account == "" then "" else ":" + id.account
  }

  function Kind(o: Owner): string {
    match o
    case User(_) => "user"
    case Member(_, _) => "member"
    case Shared(kind, _) => kind
  }

  function Ident(o: Owner): string {
    match o
    case User(sub) => sub
    case Member(org, sub) => Digits(org) + ":" + sub
    case Shared(_, ident) => ident
  }

  lemma BoundText(id: Id)
    ensures Aad(id) == "connector_credentials:" + (Kind(id.owner) + [':'] + (Ident(id.owner) + [':'] + Tail(id)))
  {
    hide Digits;
    assert OwnerText(id.owner) == Kind(id.owner) + ":" + Ident(id.owner);
  }

  lemma KindHasNoColon(id: Id)
    requires Separable(id)
    ensures NoColon(Kind(id.owner))
  {
  }

  lemma TailTells(a: Id, b: Id)
    requires NoColon(a.connector) && NoColon(b.connector) && Tail(a) == Tail(b)
    ensures a.connector == b.connector && a.account == b.account
  {
    ColonInTail(a);
    ColonInTail(b);
    if a.account != "" && b.account != "" {
      assert Tail(a) == a.connector + [':'] + a.account && Tail(b) == b.connector + [':'] + b.account;
      CutAtFirst(':', a.connector, a.account, b.connector, b.account);
    }
  }

  lemma ColonInTail(id: Id)
    requires NoColon(id.connector)
    ensures NoColon(Tail(id)) <==> id.account == ""
    ensures id.account == "" ==> Tail(id) == id.connector
  {
    if id.account != "" {
      assert Tail(id)[|id.connector|] == ':';
    } else {
      assert Tail(id) == id.connector;
    }
  }

  lemma MembersTell(a: Id, b: Id)
    requires a.owner.Member? && b.owner.Member? && NoColon(a.owner.sub) && NoColon(b.owner.sub)
    requires Ident(a.owner) + [':'] + Tail(a) == Ident(b.owner) + [':'] + Tail(b)
    ensures a.owner == b.owner && Tail(a) == Tail(b)
  {
    MemberText(a);
    MemberText(b);
    hide Digits, Tail, Ident;
    CutAtFirst(':', Digits(a.owner.org), a.owner.sub + [':'] + Tail(a), Digits(b.owner.org), b.owner.sub + [':'] + Tail(b));
    CutAtFirst(':', a.owner.sub, Tail(a), b.owner.sub, Tail(b));
    DigitsInjective(a.owner.org, b.owner.org);
  }

  lemma MemberText(id: Id)
    requires id.owner.Member?
    ensures NoColon(Digits(id.owner.org))
    ensures Ident(id.owner) + [':'] + Tail(id) == Digits(id.owner.org) + [':'] + (id.owner.sub + [':'] + Tail(id))
  {
    hide Tail;
  }

  lemma PlatformTells(a: Id, b: Id)
    requires Separable(a) && Separable(b) && a.owner.Shared? && b.owner.Shared?
    requires a.owner.kind == b.owner.kind == "platform"
    requires Ident(a.owner) + [':'] + Tail(a) == Ident(b.owner) + [':'] + Tail(b)
    ensures a.owner == b.owner && Tail(a) == Tail(b)
  {
    ColonInTail(a);
    ColonInTail(b);
    hide Tail;
    CutAtLast(':', a.owner.ident, Tail(a), b.owner.ident, Tail(b));
  }

  lemma OwnersTell(a: Id, b: Id)
    requires Separable(a) && Separable(b) && Kind(a.owner) == Kind(b.owner)
    requires Ident(a.owner) + [':'] + Tail(a) == Ident(b.owner) + [':'] + Tail(b)
    ensures a == b
  {
    if a.owner.Member? {
      MembersTell(a, b);
    } else if a.owner.Shared? && a.owner.kind == "platform" {
      PlatformTells(a, b);
    } else {
      hide Tail;
      CutAtFirst(':', Ident(a.owner), Tail(a), Ident(b.owner), Tail(b));
    }
    TailTells(a, b);
  }

  /** Two such rows are bound to the same text only if they are the same row. */
  lemma BoundTextTellsTheRow(a: Id, b: Id)
    requires Separable(a) && Separable(b)
    ensures Aad(a) == Aad(b) <==> a == b
  {
    if Aad(a) == Aad(b) {
      BoundText(a);
      BoundText(b);
      KindHasNoColon(a);
      KindHasNoColon(b);
      var x, y := Ident(a.owner) + [':'] + Tail(a), Ident(b.owner) + [':'] + Tail(b);
      hide Aad, Kind, Ident, Tail, Separable;
      SamePrefix("connector_credentials:", Kind(a.owner) + [':'] + x, Kind(b.owner) + [':'] + y);
      CutAtFirst(':', Kind(a.owner), x, Kind(b.owner), y);
      OwnersTell(a, b);
    }
  }

  lemma SamePrefix(p: string, x: string, y: string)
    requires p + x == p + y
    ensures x == y
  {
    assert x == (p + x)[|p|..] && y == (p + y)[|p|..];
  }

  /** The ciphertext of a row, moved to another one, does not open there. */
  lemma OpensAtHomeOnly(master: int, rows: Rows, id: Id, other: Id)
    requires Separable(id) && Separable(other) && id in rows && Readable(master, rows, id)
    ensures Readable(master, rows[other := rows[id]], other) <==> other == id
  {
    BoundTextTellsTheRow(id, other);
  }

  // ---- exactly when, for the rows of one entity

  // Rows of one entity, whatever their accounts, are bound to distinct texts.
  ghost predicate ToldApart(owner: Owner, connectors: set<string>) {
    forall a: Id, b: Id | a.owner == owner && b.owner == owner && a.connector in connectors && b.connector in connectors ::
      Aad(a) == Aad(b) ==> a == b
  }

  predicate Begins(c: string, d: string) {
    c + ":" <= d
  }

  lemma SameTail(a: Id, b: Id)
    requires a.owner == b.owner
    ensures Aad(a) == Aad(b) <==> Tail(a) == Tail(b)
  {
    BoundText(a);
    BoundText(b);
    hide Aad, Tail;
    if Aad(a) == Aad(b) {
      var p := "connector_credentials:" + (Kind(a.owner) + [':'] + (Ident(a.owner) + [':']));
      assert forall id | id == a || id == b :: Aad(id) == p + Tail(id);
      SamePrefix(p, Tail(a), Tail(b));
    }
  }

  // Two rows of one text: the shorter connector, and a `:`, begin the longer one.
  lemma LongerBegins(a: Id, b: Id)
    requires Tail(a) == Tail(b) && |a.connector| < |b.connector|
    ensures Begins(a.connector, b.connector)
  {
    assert a.account != "";
    var t := Tail(a);
    assert t[..|a.connector| + 1] == a.connector + ":" by {
      assert t == a.connector + ":" + a.account;
    }
    assert t[..|b.connector|] == b.connector;
    assert b.connector[..|a.connector| + 1] == t[..|a.connector| + 1];
  }

  lemma SameLengthSame(a: Id, b: Id)
    requires Tail(a) == Tail(b) && |a.connector| == |b.connector|
    ensures a.connector == b.connector && a.account == b.account
  {
    var t := Tail(a);
    assert t[..|a.connector|] == a.connector && t[..|b.connector|] == b.connector;
    assert t[|a.connector|..] == (if a.account == "" then "" else ":" + a.account);
    assert t[|b.connector|..] == (if b.account == "" then "" else ":" + b.account);
    assert a.account != "" ==> (":" + a.account)[1..] == a.account;
    assert b.account != "" ==> (":" + b.account)[1..] == b.account;
  }

  lemma BeginningConfuses(owner: Owner, c: string, d: string) returns (a: Id, b: Id)
    requires Begins(c, d)
    ensures a.owner == b.owner == owner && a.connector == c && b.connector == d && Aad(a) == Aad(b) && a != b
  {
    a, b := Id(owner, c, d[|c| + 1..] + ":x"), Id(owner, d, "x");
    assert d == c + ":" + d[|c| + 1..];
    SameTail(a, b);
    assert Tail(a) == c + (":" + (d[|c| + 1..] + ":x"));
    assert Tail(b) == d + (":" + "x");
  }

  /** Whatever its rows are called, the bound texts of an entity tell them apart if and only if no
      connector begins with another one followed by `:`. */
  lemma ToldApartIff(owner: Owner, connectors: set<string>)
    ensures ToldApart(owner, connectors) <==> forall c, d | c in connectors && d in connectors :: !Begins(c, d)
  {
    hide Begins, Aad;
    if c, d :| c in connectors && d in connectors && Begins(c, d) {
      var a, b := BeginningConfuses(owner, c, d);
    } else {
      forall a: Id, b: Id | a.owner == owner && b.owner == owner && a.connector in connectors && b.connector in connectors && Aad(a) == Aad(b)
        ensures a == b
      {
        SameTail(a, b);
        if |a.connector| < |b.connector| {
          LongerBegins(a, b);
        } else if |b.connector| < |a.connector| {
          LongerBegins(b, a);
        } else {
          SameLengthSame(a, b);
        }
      }
    }
  }

  /** The condition counts: with a `:` in the connector, two rows are bound to one text, and the
      ciphertext of one opens at the other. */
  lemma ColonsConfuseRows(master: int, plain: string)
    ensures
      var a, b := Id(Shared("org", "12"), "zoho", "7:mail"), Id(Shared("org", "12"), "zoho:7", "mail");
      && a != b && Separable(a) && !Separable(b)
      && Decrypt(master, Encrypt(master, plain, Aad(a)), Aad(b)) == Some(plain)
  {
    var a, b := Id(Shared("org", "12"), "zoho", "7:mail"), Id(Shared("org", "12"), "zoho:7", "mail");
    assert b.connector[4] == ':';
    assert "zoho" + (":" + "7:mail") == "zoho:7" + (":" + "mail");
    assert Aad(a) == "connector_credentials:" + OwnerText(a.owner) + ":" + ("zoho" + (":" + "7:mail"));
    assert Aad(b) == "connector_credentials:" + OwnerText(b.owner) + ":" + ("zoho:7" + (":" + "mail"));
  }
}
