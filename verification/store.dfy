/**
 The persistent state the engine works on, as immutable data: accounts by id and
 the edge collection in insertion order, with the lookups the controller asks of
 its storage collaborator.
 */
module Store {
  import opened Outcomes
  import opened User
  import opened Referral

  datatype Store = Store(accounts: map<Id, Account>, edges: seq<Edge>)

  /** The unique index on referral codes. */
  predicate UniqueCodes(accounts: map<Id, Account>)
  {
    forall i, j :: i in accounts && j in accounts && accounts[i].referralCode == accounts[j].referralCode ==> i == j
  }

  /** `findOne({referralCode: code})`. */
  function FindByCode(accounts: map<Id, Account>, code: string): (r: Option<Id>)
    requires UniqueCodes(accounts)
    ensures r.Some? ==> r.value in accounts && accounts[r.value].referralCode == code
    ensures r.None? ==> forall id :: id in accounts ==> accounts[id].referralCode != code
  {
    if exists id :: id in accounts && accounts[id].referralCode == code then
      var id :| id in accounts && accounts[id].referralCode == code; Some(id)
    else
      None
  }

  /** ASCII upper-casing of one character. */
  function UpperChar(c: char): char
  {
    if IsLower(c) then (c as int - 'a' as int + 'A' as int) as char else c
  }

  /** A lower-case ASCII letter. */
  predicate IsLower(c: char)
  {
    'a' <= c <= 'z'
  }

  /**
   `s.toUpperCase()` on ASCII letters: no lower-case letter is left, every other
   character is kept in place, and each lower-case letter becomes the upper-case
   letter at the same position of the alphabet.
   */
  function ToUpper(s: string): (r: string)
    ensures |r| == |s|
    ensures forall i :: 0 <= i < |r| ==> !IsLower(r[i])
    ensures forall i :: 0 <= i < |s| && !IsLower(s[i]) ==> r[i] == s[i]
    ensures forall i :: 0 <= i < |s| && IsLower(s[i]) ==> r[i] as int - 'A' as int == s[i] as int - 'a' as int
  {
    seq(|s|, i requires 0 <= i < |s| => UpperChar(s[i]))
  }

  /** A string without lower-case letters, such as a generated code, is its own upper-casing. */
  lemma ToUpperKeepsUpperCase(s: string)
    requires forall i :: 0 <= i < |s| ==> !IsLower(s[i])
    ensures ToUpper(s) == s
  {
  }

  /** Upper-casing twice is upper-casing once. */
  lemma ToUpperIsIdempotent(s: string)
    ensures ToUpper(ToUpper(s)) == ToUpper(s)
  {
    ToUpperKeepsUpperCase(ToUpper(s));
  }

  /**
   An edge filter as passed to `Referral.find`: every field that is present must
   match exactly; an absent field matches anything.
   */
  datatype Query = Query(
    referrer: Option<Id>,
    referred: Option<Id>,
    level: Option<Level>,
    status: Option<Status>,
    month: Option<Month>)

  predicate Matches(q: Query, e: Edge)
  {
    && (q.referrer.Some? ==> e.referrer == q.referrer.value)
    && (q.referred.Some? ==> e.referred == q.referred.value)
    && (q.level.Some? ==> e.level == q.level.value)
    && (q.status.Some? ==> e.status == q.status.value)
    && (q.month.Some? ==> e.month == q.month.value)
  }

  /** `{referrer, month}`: an account's edges in one month, as the cap check reads them. */
  function InMonth(referrer: Id, month: Month): Query
  {
    Query(Some(referrer), None, None, None, Some(month))
  }

  /** `{referrer, level, month}`: an account's edges at one level in one month, as the status reads them. */
  function AtLevelInMonth(referrer: Id, level: Level, month: Month): Query
  {
    Query(Some(referrer), None, Some(level), None, Some(month))
  }

  /** `{referred, level, status: 'pending'}`: the edges through which an account's ancestors are found. */
  function Upline(referred: Id, level: Level): Query
  {
    Query(None, Some(referred), Some(level), Some(Pending), None)
  }

  /** Every edge naming `referrer` as the credited account. */
  function CreditedTo(referrer: Id): Query
  {
    Query(Some(referrer), None, None, None, None)
  }

  /** `Referral.find(q)`: the matching edges, in insertion order. */
  function Find(edges: seq<Edge>, q: Query): (r: seq<Edge>)
    ensures |r| <= |edges|
    ensures forall i :: 0 <= i < |r| ==> Matches(q, r[i])
    ensures forall e :: e in r <==> e in edges && Matches(q, e)
  {
    if edges == [] then []
    else (if Matches(q, edges[0]) then [edges[0]] else []) + Find(edges[1..], q)
  }

  /** Querying a log extended at its end queries each part and concatenates the answers. */
  lemma {:induction false} FindAppend(a: seq<Edge>, b: seq<Edge>, q: Query)
    ensures Find(a + b, q) == Find(a, q) + Find(b, q)
  {
    if a == [] {
      assert a + b == b;
    } else {
      assert (a + b)[1..] == a[1..] + b;
      FindAppend(a[1..], b, q);
    }
  }

  /** The answer for one more edge: the old answer, extended by the edge exactly when it matches. */
  lemma FindSnoc(edges: seq<Edge>, e: Edge, q: Query)
    ensures Find(edges + [e], q) == Find(edges, q) + (if Matches(q, e) then [e] else [])
  {
    FindAppend(edges, [e], q);
  }

  /** Querying a single edge finds it exactly when it matches. */
  lemma FindSingle(e: Edge, q: Query)
    ensures Find([e], q) == if Matches(q, e) then [e] else []
  {
    assert [e][1..] == [];
  }

  /** A query no edge matches finds nothing. */
  lemma {:induction false} FindNone(edges: seq<Edge>, q: Query)
    requires forall i :: 0 <= i < |edges| ==> !Matches(q, edges[i])
    ensures Find(edges, q) == []
  {
    if edges != [] {
      FindNone(edges[1..], q);
    }
  }

  /** `reduce((sum, ref) => sum + ref.creditAmount, 0)`. */
  function Sum(edges: seq<Edge>): real
  {
    if edges == [] then 0.0 else edges[0].creditAmount + Sum(edges[1..])
  }

  lemma {:induction false} SumAppend(a: seq<Edge>, b: seq<Edge>)
    ensures Sum(a + b) == Sum(a) + Sum(b)
  {
    if a == [] {
      assert a + b == b;
    } else {
      assert (a + b)[1..] == a[1..] + b;
      SumAppend(a[1..], b);
    }
  }

  /** The credit recorded in `edges` in the name of `id`. */
  function CreditedIn(edges: seq<Edge>, id: Id): real
  {
    Sum(Find(edges, CreditedTo(id)))
  }

  /** Credit recorded in a log extended at its end is the credit recorded in each part. */
  lemma CreditedInAppend(a: seq<Edge>, b: seq<Edge>, id: Id)
    ensures CreditedIn(a + b, id) == CreditedIn(a, id) + CreditedIn(b, id)
  {
    FindAppend(a, b, CreditedTo(id));
    SumAppend(Find(a, CreditedTo(id)), Find(b, CreditedTo(id)));
  }

  lemma CreditedInEmpty(id: Id)
    ensures CreditedIn([], id) == 0.0
  {
  }

  /** A single edge credits exactly its referrer, with exactly its amount. */
  lemma CreditedInSingle(e: Edge, id: Id)
    ensures CreditedIn([e], id) == if e.referrer == id then e.creditAmount else 0.0
  {
    var q := CreditedTo(id);
    assert [e][1..] == [];
    assert Find([e], q) == (if Matches(q, e) then [e] else []) + Find([], q);
    if Matches(q, e) {
      assert Sum([e]) == e.creditAmount + Sum([]);
    }
  }
}
