/** Credential lists: the registry that edits them, the password check, and the second-factor step with
    its one-time recovery codes. Hash checks, code checks and decryption are parameters. */
module Credentials {
  import opened Common

  datatype Totp = Totp(secret: string, enabled: bool, recoveryCodes: seq<string>, enrolledAt: nat)

  datatype Credential =
    | PrimaryPassword(hash: string, updatedAt: nat)
    | AppPassword(id: nat, appHash: string)
    | Factor(totp: Totp)
    | ApiKey(keyId: nat)

  // ----- The lists -----

  function WithoutPrimary(cs: seq<Credential>): seq<Credential>
  {
    if cs == [] then [] else
      WithoutPrimary(cs[..|cs| - 1]) + if cs[|cs| - 1].PrimaryPassword? then [] else [cs[|cs| - 1]]
  }

  function WithoutFactor(cs: seq<Credential>): seq<Credential>
  {
    if cs == [] then [] else
      WithoutFactor(cs[..|cs| - 1]) + if cs[|cs| - 1].Factor? then [] else [cs[|cs| - 1]]
  }

  function WithoutApp(cs: seq<Credential>, id: nat): seq<Credential>
  {
    if cs == [] then [] else
      WithoutApp(cs[..|cs| - 1], id) +
      if cs[|cs| - 1].AppPassword? && cs[|cs| - 1].id == id then [] else [cs[|cs| - 1]]
  }

  function Primaries(cs: seq<Credential>): nat
  {
    if cs == [] then 0 else Primaries(cs[..|cs| - 1]) + if cs[|cs| - 1].PrimaryPassword? then 1 else 0
  }

  function Factors(cs: seq<Credential>): nat
  {
    if cs == [] then 0 else Factors(cs[..|cs| - 1]) + if cs[|cs| - 1].Factor? then 1 else 0
  }

  /** At most one primary password and one second factor. */
  predicate Single(cs: seq<Credential>)
  {
    Primaries(cs) <= 1 && Factors(cs) <= 1
  }

  /** The recovery codes stored, over all factors. */
  function Codes(cs: seq<Credential>): multiset<string>
  {
    if cs == [] then multiset{} else
      Codes(cs[..|cs| - 1]) + if cs[|cs| - 1].Factor? then multiset(cs[|cs| - 1].totp.recoveryCodes) else multiset{}
  }

  lemma Snoc(cs: seq<Credential>, c: Credential)
    ensures Primaries(cs + [c]) == Primaries(cs) + if c.PrimaryPassword? then 1 else 0
    ensures Factors(cs + [c]) == Factors(cs) + if c.Factor? then 1 else 0
    ensures Codes(cs + [c]) == Codes(cs) + if c.Factor? then multiset(c.totp.recoveryCodes) else multiset{}
  {
    assert (cs + [c])[..|cs|] == cs;
  }

  lemma {:induction false} WithoutPrimaryCounts(cs: seq<Credential>)
    ensures var r := WithoutPrimary(cs); Primaries(r) == 0 && Factors(r) == Factors(cs) && Codes(r) == Codes(cs)
  {
    if cs != [] {
      var n := |cs| - 1;
      WithoutPrimaryCounts(cs[..n]);
      if cs[n].PrimaryPassword? {
        assert WithoutPrimary(cs) == WithoutPrimary(cs[..n]);
      } else {
        Snoc(WithoutPrimary(cs[..n]), cs[n]);
      }
    }
  }

  lemma {:induction false} WithoutFactorCounts(cs: seq<Credential>)
    ensures var r := WithoutFactor(cs);
            Factors(r) == 0 && Primaries(r) == Primaries(cs) && Codes(r) == multiset{} && |r| == |cs| - Factors(cs)
  {
    if cs != [] {
      var n := |cs| - 1;
      WithoutFactorCounts(cs[..n]);
      assert cs == cs[..n] + [cs[n]];
      if cs[n].Factor? {
        assert WithoutFactor(cs) == WithoutFactor(cs[..n]);
      } else {
        Snoc(WithoutFactor(cs[..n]), cs[n]);
      }
    }
  }

  lemma {:induction false} WithoutAppCounts(cs: seq<Credential>, id: nat)
    ensures var r := WithoutApp(cs, id);
            Primaries(r) == Primaries(cs) && Factors(r) == Factors(cs) && Codes(r) == Codes(cs)
  {
    if cs != [] {
      var n := |cs| - 1;
      WithoutAppCounts(cs[..n], id);
      if cs[n].AppPassword? && cs[n].id == id {
        assert WithoutApp(cs, id) == WithoutApp(cs[..n], id);
      } else {
        Snoc(WithoutApp(cs[..n], id), cs[n]);
      }
    }
  }

  // Each of the three filters takes out what it names and keeps everything else.

  lemma {:induction false} WithoutPrimaryExact(cs: seq<Credential>, c: Credential)
    ensures multiset(WithoutPrimary(cs))[c] == if c.PrimaryPassword? then 0 else multiset(cs)[c]
  {
    if cs != [] {
      var n := |cs| - 1;
      WithoutPrimaryExact(cs[..n], c);
      assert cs == cs[..n] + [cs[n]];
      assert multiset(cs)[c] == multiset(cs[..n])[c] + multiset([cs[n]])[c];
    }
  }

  lemma {:induction false} WithoutFactorExact(cs: seq<Credential>, c: Credential)
    ensures multiset(WithoutFactor(cs))[c] == if c.Factor? then 0 else multiset(cs)[c]
  {
    if cs != [] {
      var n := |cs| - 1;
      WithoutFactorExact(cs[..n], c);
      assert cs == cs[..n] + [cs[n]];
      assert multiset(cs)[c] == multiset(cs[..n])[c] + multiset([cs[n]])[c];
    }
  }

  lemma {:induction false} WithoutAppExact(cs: seq<Credential>, id: nat, c: Credential)
    ensures multiset(WithoutApp(cs, id))[c] == if c.AppPassword? && c.id == id then 0 else multiset(cs)[c]
  {
    if cs != [] {
      var n := |cs| - 1;
      WithoutAppExact(cs[..n], id, c);
      assert cs == cs[..n] + [cs[n]];
      assert multiset(cs)[c] == multiset(cs[..n])[c] + multiset([cs[n]])[c];
    }
  }

  // ----- The registry -----

  function ListIn(lists: map<nat, seq<Credential>>, account: nat): seq<Credential>
  {
    if account in lists then lists[account] else []
  }

  /** One account's list replaced; an empty list is not stored. */
  function WithList(lists: map<nat, seq<Credential>>, account: nat, cs: seq<Credential>): map<nat, seq<Credential>>
  {
    if cs == [] then lists - {account} else lists[account := cs]
  }

  lemma WithListReads(lists: map<nat, seq<Credential>>, account: nat, cs: seq<Credential>, a: nat)
    ensures ListIn(WithList(lists, account, cs), a) == if a == account then cs else ListIn(lists, a)
  {
  }

  predicate ListsGood(lists: map<nat, seq<Credential>>)
  {
    forall a | a in lists :: lists[a] != [] && Single(lists[a])
  }

  lemma SameList(lists: map<nat, seq<Credential>>, account: nat)
    requires ListsGood(lists)
    ensures WithList(lists, account, ListIn(lists, account)) == lists
  {
  }

  /** What the registry can do to a list. */
  datatype ListEdit =
    | SetPrimary(hash: string, now: nat)
    | AddApp(id: nat, appHash: string)
    | RevokeApp(id: nat)
    | SetFactor(totp: Totp)
    | ClearFactor
    | Remove

  function EditedList(cs: seq<Credential>, e: ListEdit): seq<Credential>
  {
    match e
    case SetPrimary(hash, now) => WithoutPrimary(cs) + [PrimaryPassword(hash, now)]
    case AddApp(id, hash) => cs + [AppPassword(id, hash)]
    case RevokeApp(id) => WithoutApp(cs, id)
    case SetFactor(totp) => WithoutFactor(cs) + [Factor(totp)]
    case ClearFactor => WithoutFactor(cs)
    case Remove => []
  }

  /** Every edit keeps one primary password and one factor at most, and moves the recovery codes only with
      the factor. */
  lemma EditedListKeeps(cs: seq<Credential>, e: ListEdit)
    requires Single(cs)
    ensures Single(EditedList(cs, e))
    ensures Codes(EditedList(cs, e)) ==
            match e
            case SetFactor(totp) => multiset(totp.recoveryCodes)
            case ClearFactor => multiset{}
            case Remove => multiset{}
            case _ => Codes(cs)
  {
    match e
    case SetPrimary(hash, now) =>
      WithoutPrimaryCounts(cs);
      Snoc(WithoutPrimary(cs), PrimaryPassword(hash, now));
    case AddApp(id, hash) => Snoc(cs, AppPassword(id, hash));
    case RevokeApp(id) => WithoutAppCounts(cs, id);
    case SetFactor(totp) =>
      WithoutFactorCounts(cs);
      Snoc(WithoutFactor(cs), Factor(totp));
    case ClearFactor => WithoutFactorCounts(cs);
    case Remove =>
  }

  /** How often an entry stands in a list after an edit. */
  function CountAfter(cs: seq<Credential>, e: ListEdit, c: Credential): nat
  {
    var before := multiset(cs)[c];
    match e
    case SetPrimary(hash, now) => if c.PrimaryPassword? then Once(c.hash == hash && c.updatedAt == now) else before
    case AddApp(id, hash) => before + Once(c.AppPassword? && c.id == id && c.appHash == hash)
    case RevokeApp(id) => if c.AppPassword? && c.id == id then 0 else before
    case SetFactor(totp) => if c.Factor? then Once(c.totp == totp) else before
    case ClearFactor => if c.Factor? then 0 else before
    case Remove => 0
  }

  function Once(b: bool): nat
  {
    if b then 1 else 0
  }

  /** An edit puts in exactly what it names, takes out exactly what that replaces, and leaves everything else as
      often as it was there. */
  lemma EditedListExact(cs: seq<Credential>, e: ListEdit, c: Credential)
    ensures multiset(EditedList(cs, e))[c] == CountAfter(cs, e, c)
  {
    WithoutPrimaryExact(cs, c);
    WithoutFactorExact(cs, c);
    match e
    case RevokeApp(id) => WithoutAppExact(cs, id, c);
    case _ =>
  }

  class CredentialRegistry {
    var lists: map<nat, seq<Credential>>

    ghost predicate Valid()
      reads this
    {
      ListsGood(lists)
    }

    ghost function ListOf(account: nat): seq<Credential>
      reads this
    {
      ListIn(lists, account)
    }

    constructor ()
      ensures Valid() && lists == map[]
    {
      lists := map[];
    }

    method List(account: nat) returns (cs: seq<Credential>)
      ensures cs == ListOf(account)
    {
      cs := if account in lists then lists[account] else [];
    }

    method Write(account: nat, cs: seq<Credential>)
      requires Valid() && Single(cs)
      modifies this
      ensures Valid() && lists == WithList(old(lists), account, cs)
    {
      lists := if cs == [] then lists - {account} else lists[account := cs];
    }

    method SetPrimaryPassword(account: nat, hash: string, now: nat)
      requires Valid()
      modifies this
      ensures Valid()
      ensures lists == WithList(old(lists), account, EditedList(old(ListOf(account)), SetPrimary(hash, now)))
    {
      var cs := List(account);
      EditedListKeeps(cs, SetPrimary(hash, now));
      Write(account, WithoutPrimary(cs) + [PrimaryPassword(hash, now)]);
    }

    method AddAppPassword(account: nat, id: nat, hash: string)
      requires Valid()
      modifies this
      ensures Valid() && lists == WithList(old(lists), account, EditedList(old(ListOf(account)), AddApp(id, hash)))
    {
      var cs := List(account);
      EditedListKeeps(cs, AddApp(id, hash));
      Write(account, cs + [AppPassword(id, hash)]);
    }

    method RevokeAppPassword(account: nat, id: nat) returns (found: bool)
      requires Valid()
      modifies this
      ensures Valid() && lists == WithList(old(lists), account, EditedList(old(ListOf(account)), RevokeApp(id)))
      ensures found <==> exists c | c in old(ListOf(account)) :: c.AppPassword? && c.id == id
    {
      var cs := List(account);
      EditedListKeeps(cs, RevokeApp(id));
      WithoutAppFound(cs, id);
      SameList(lists, account);
      found := |WithoutApp(cs, id)| != |cs|;
      if found { Write(account, WithoutApp(cs, id)); }
    }

    method SetTotp(account: nat, totp: Totp)
      requires Valid()
      modifies this
      ensures Valid() && lists == WithList(old(lists), account, EditedList(old(ListOf(account)), SetFactor(totp)))
    {
      var cs := List(account);
      EditedListKeeps(cs, SetFactor(totp));
      Write(account, WithoutFactor(cs) + [Factor(totp)]);
    }

    method ClearTotp(account: nat)
      requires Valid()
      modifies this
      ensures Valid() && lists == WithList(old(lists), account, EditedList(old(ListOf(account)), ClearFactor))
      ensures Factors(ListOf(account)) == 0
    {
      var cs := List(account);
      EditedListKeeps(cs, ClearFactor);
      WithoutFactorCounts(cs);
      SameList(lists, account);
      if |WithoutFactor(cs)| != |cs| {
        Write(account, WithoutFactor(cs));
      } else {
        NothingToDrop(cs);
      }
    }

    method RemoveAll(account: nat)
      requires Valid()
      modifies this
      ensures Valid() && lists == WithList(old(lists), account, EditedList(old(ListOf(account)), Remove))
    {
      lists := lists - {account};
    }
  }

  lemma {:induction false} WithoutAppFound(cs: seq<Credential>, id: nat)
    ensures |WithoutApp(cs, id)| <= |cs|
    ensures |WithoutApp(cs, id)| != |cs| <==> exists c | c in cs :: c.AppPassword? && c.id == id
    ensures |WithoutApp(cs, id)| == |cs| ==> WithoutApp(cs, id) == cs
  {
    if cs != [] {
      var n := |cs| - 1;
      WithoutAppFound(cs[..n], id);
      assert cs == cs[..n] + [cs[n]];
    }
  }

  lemma {:induction false} NothingToDrop(cs: seq<Credential>)
    requires Factors(cs) == 0
    ensures WithoutFactor(cs) == cs
  {
    if cs != [] {
      NothingToDrop(cs[..|cs| - 1]);
      assert cs == cs[..|cs| - 1] + [cs[|cs| - 1]];
    }
  }

  // ----- authenticate -----

  datatype Purpose = Interactive | Mail

  datatype By = ByPrimary(mfaRequired: bool) | ByApp(id: nat)

  datatype Authentication = Granted(means: By) | Denied

  type Check = (string, string) -> Result<bool>

  /** The checks of foreign code: of a password, an app password and a recovery code against a stored hash,
      and of a code against a factor at a time, which decrypts the factor's secret first. */
  datatype Checks = Checks(password: Check, app: Check, recovery: Check, code: (Totp, string, nat) -> Result<bool>)

  predicate HasEnabledFactor(cs: seq<Credential>)
  {
    exists i | 0 <= i < |cs| :: cs[i].Factor? && cs[i].totp.enabled
  }

  /** What checking the secret against one entry gives; entries that do not take part give false. */
  function Tried(c: Credential, purpose: Purpose, secret: string, k: Checks): Result<bool>
  {
    match c
    case PrimaryPassword(hash, _) => k.password(secret, hash)
    case AppPassword(_, hash) => if purpose == Mail then k.app(secret, hash) else Ok(false)
    case _ => Ok(false)
  }

  predicate FirstMatch(cs: seq<Credential>, purpose: Purpose, secret: string, k: Checks, i: nat)
  {
    && i < |cs| && Tried(cs[i], purpose, secret, k) == Ok(true)
    && forall j | 0 <= j < i :: Tried(cs[j], purpose, secret, k) != Ok(true)
  }

  function ByOf(cs: seq<Credential>, purpose: Purpose, i: nat): By
    requires i < |cs|
  {
    if cs[i].AppPassword? then ByApp(cs[i].id) else ByPrimary(purpose == Interactive && HasEnabledFactor(cs))
  }

  /** Some entry's check errs. */
  predicate Errs(cs: seq<Credential>, purpose: Purpose, secret: string, k: Checks)
  {
    exists i | 0 <= i < |cs| :: Tried(cs[i], purpose, secret, k).Err?
  }

  /** What the answer to a login must be: every entry is tried, an error on any of them is an error, and
      otherwise the first match decides. */
  ghost predicate Decided(active: bool, cs: seq<Credential>, purpose: Purpose, secret: string, k: Checks,
                          r: Result<Authentication>)
  {
    if !active then r == Ok(Denied)
    else if Errs(cs, purpose, secret, k) then r.Err?
    else if r == Ok(Denied) then forall i | 0 <= i < |cs| :: Tried(cs[i], purpose, secret, k) == Ok(false)
    else r.Ok? && exists i :: FirstMatch(cs, purpose, secret, k, i) && r.value == Granted(ByOf(cs, purpose, i))
  }

  method Authenticate(active: bool, cs: seq<Credential>, purpose: Purpose, secret: string, k: Checks)
    returns (r: Result<Authentication>)
    ensures Decided(active, cs, purpose, secret, k, r)
  {
    if !active { return Ok(Denied); }
    var matched: Option<By> := None;
    ghost var at := 0;
    for i := 0 to |cs|
      invariant forall j | 0 <= j < i :: Tried(cs[j], purpose, secret, k).Ok?
      invariant matched.None? ==> forall j | 0 <= j < i :: Tried(cs[j], purpose, secret, k) == Ok(false)
      invariant matched.Some? ==> FirstMatch(cs, purpose, secret, k, at) && matched.value == ByOf(cs, purpose, at)
    {
      match cs[i] {
        case PrimaryPassword(hash, _) =>
          var ok := k.password(secret, hash);
          if ok.Err? { return Err(ok.error); }
          if ok.value && matched.None? {
            matched := Some(ByPrimary(purpose == Interactive && HasEnabledFactor(cs)));
            at := i;
          }
        case AppPassword(id, hash) =>
          if purpose == Mail {
            var ok := k.app(secret, hash);
            if ok.Err? { return Err(ok.error); }
            if ok.value && matched.None? {
              matched := Some(ByApp(id));
              at := i;
            }
          }
        case _ =>
      }
    }
    r := Ok(if matched.Some? then Granted(matched.value) else Denied);
  }

  /** The secret is the password of one of the stored entries. */
  predicate Correct(secret: string, stored: seq<Credential>, k: Checks)
  {
    exists i | 0 <= i < |stored| :: stored[i].PrimaryPassword? && k.password(secret, stored[i].hash) == Ok(true)
  }

  /** The password step succeeds: an active account, no check that errs, and a correct password. */
  predicate Lets(active: bool, cs: seq<Credential>, secret: string, k: Checks)
  {
    active && Correct(secret, cs, k) && !Errs(cs, Interactive, secret, k)
  }

  /** The same with the errors told apart. */
  function Verdict(active: bool, cs: seq<Credential>, secret: string, k: Checks): Result<bool>
  {
    if active && Errs(cs, Interactive, secret, k) then Err(Internal) else Ok(Lets(active, cs, secret, k))
  }

  /** An interactive login is granted exactly by a correct password, and owes the second factor exactly when
      one is enabled. */
  lemma InteractiveExact(active: bool, cs: seq<Credential>, secret: string, k: Checks, r: Result<Authentication>)
    requires Decided(active, cs, Interactive, secret, k, r)
    ensures r.Err? <==> active && Errs(cs, Interactive, secret, k)
    ensures r.Ok? && r.value.Granted? <==> Lets(active, cs, secret, k)
    ensures r.Ok? && r.value.Granted? ==> r.value.means == ByPrimary(HasEnabledFactor(cs))
  {
    assert r.Ok? && !r.value.Granted? ==> r == Ok(Denied);
    assert Correct(secret, cs, k) ==> exists i | 0 <= i < |cs| :: Tried(cs[i], Interactive, secret, k) == Ok(true);
    if r.Ok? && r.value.Granted? {
      var i: nat :| FirstMatch(cs, Interactive, secret, k, i) && r.value == Granted(ByOf(cs, Interactive, i));
      assert cs[i].PrimaryPassword?;
    }
  }

  /** The same without the notions above: granted to an active account when every password check succeeds and
      one says yes, an error when one of them errs. */
  lemma LetsExact(active: bool, cs: seq<Credential>, secret: string, k: Checks)
    ensures Lets(active, cs, secret, k) <==>
            && active
            && (forall c | c in cs && c.PrimaryPassword? :: k.password(secret, c.hash).Ok?)
            && (exists c | c in cs :: c.PrimaryPassword? && k.password(secret, c.hash) == Ok(true))
    ensures Errs(cs, Interactive, secret, k) <==>
            exists c | c in cs :: c.PrimaryPassword? && k.password(secret, c.hash).Err?
  {
    forall c | c in cs && c.PrimaryPassword?
      ensures exists i | 0 <= i < |cs| ::
                cs[i] == c && Tried(cs[i], Interactive, secret, k) == k.password(secret, c.hash)
    {
      var i :| 0 <= i < |cs| && cs[i] == c;
    }
  }

  /** The secret is the password, or one of the app passwords, of this entry. */
  predicate Opens(c: Credential, secret: string, k: Checks)
  {
    || (c.PrimaryPassword? && k.password(secret, c.hash) == Ok(true))
    || (c.AppPassword? && k.app(secret, c.appHash) == Ok(true))
  }

  /** A mail login is granted exactly by an entry its secret opens, password or app password, the first such
      entry, and never owes a second factor. */
  lemma MailExact(active: bool, cs: seq<Credential>, secret: string, k: Checks, r: Result<Authentication>)
    requires Decided(active, cs, Mail, secret, k, r)
    ensures r.Err? <==> active && exists c | c in cs ::
              || (c.PrimaryPassword? && k.password(secret, c.hash).Err?)
              || (c.AppPassword? && k.app(secret, c.appHash).Err?)
    ensures r.Ok? && r.value.Granted? <==> active && !r.Err? && exists c | c in cs :: Opens(c, secret, k)
    ensures r.Ok? && r.value.Granted? ==>
              exists i | 0 <= i < |cs| ::
                && Opens(cs[i], secret, k) && (forall j | 0 <= j < i :: !Opens(cs[j], secret, k))
                && r.value.means == if cs[i].AppPassword? then ByApp(cs[i].id) else ByPrimary(false)
  {
    assert r.Ok? && !r.value.Granted? ==> r == Ok(Denied);
    forall i | 0 <= i < |cs| ensures Opens(cs[i], secret, k) <==> Tried(cs[i], Mail, secret, k) == Ok(true) {}
    if r.Ok? && r.value.Granted? {
      var i: nat :| FirstMatch(cs, Mail, secret, k, i) && r.value == Granted(ByOf(cs, Mail, i));
      assert cs[i] in cs && Opens(cs[i], secret, k);
    }
    forall c | c in cs
      ensures exists i | 0 <= i < |cs| :: cs[i] == c && Opens(cs[i], secret, k) == Opens(c, secret, k)
    {
      var i :| 0 <= i < |cs| && cs[i] == c;
    }
  }

  datatype Outcome = LetIn | OwesFactor | TurnedAway

  /** The password step of a two-step login. */
  method Begin(active: bool, cs: seq<Credential>, password: string, k: Checks) returns (r: Result<Outcome>)
    ensures r == Ok(LetIn) <==> Lets(active, cs, password, k) && !HasEnabledFactor(cs)
    ensures r == Ok(OwesFactor) <==> Lets(active, cs, password, k) && HasEnabledFactor(cs)
    ensures r.Err? <==> active && Errs(cs, Interactive, password, k)
  {
    var auth := Authenticate(active, cs, Interactive, password, k);
    InteractiveExact(active, cs, password, k, auth);
    if auth.Err? { return Err(auth.error); }
    if auth.value.Denied? { return Ok(TurnedAway); }
    r := Ok(if auth.value.means.mfaRequired then OwesFactor else LetIn);
  }

  // ----- The second factor -----

  predicate FirstCode(codes: seq<string>, code: string, verify: Check, i: nat)
  {
    && i < |codes| && verify(code, codes[i]) == Ok(true)
    && forall j | 0 <= j < i :: verify(code, codes[j]) == Ok(false)
  }

  /** Every stored hash is tried; the first that matches is removed, and an error removes nothing. */
  method ConsumeRecoveryCode(codes: seq<string>, code: string, verify: Check)
    returns (r: Result<bool>, left: seq<string>)
    ensures r.Err? <==> exists i | 0 <= i < |codes| :: verify(code, codes[i]).Err?
    ensures r == Ok(true) ==>
              exists i: nat :: FirstCode(codes, code, verify, i) && left == codes[..i] + codes[i + 1..]
    ensures r == Ok(false) ==> forall i | 0 <= i < |codes| :: verify(code, codes[i]) == Ok(false)
    ensures r != Ok(true) ==> left == codes
  {
    left := codes;
    var matched: Option<nat> := None;
    for i := 0 to |codes|
      invariant forall j | 0 <= j < i :: verify(code, codes[j]).Ok?
      invariant matched.None? ==> forall j | 0 <= j < i :: verify(code, codes[j]) == Ok(false)
      invariant matched.Some? ==> FirstCode(codes, code, verify, matched.value)
    {
      var ok := verify(code, codes[i]);
      if ok.Err? { return Err(ok.error), codes; }
      if ok.value && matched.None? { matched := Some(i); }
    }
    if matched.Some? {
      left := codes[..matched.value] + codes[matched.value + 1..];
      r := Ok(true);
    } else {
      r := Ok(false);
    }
  }

  /** The position of the first enabled factor, |cs| if there is none. */
  function FirstEnabled(cs: seq<Credential>): (i: nat)
    ensures i <= |cs| && (i < |cs| ==> cs[i].Factor? && cs[i].totp.enabled)
    ensures forall j | 0 <= j < i :: !(cs[j].Factor? && cs[j].totp.enabled)
    ensures i == |cs| <==> !HasEnabledFactor(cs)
  {
    if cs == [] then 0
    else if cs[0].Factor? && cs[0].totp.enabled then 0
    else
      var i := FirstEnabled(cs[1..]);
      assert forall j | 1 <= j < |cs| :: cs[j] == cs[1..][j - 1];
      assert HasEnabledFactor(cs) <==> HasEnabledFactor(cs[1..]);
      1 + i
  }

  /** The position of the first factor of any kind, |cs| if there is none. */
  function FirstFactor(cs: seq<Credential>): (i: nat)
    ensures i <= |cs| && (i < |cs| ==> cs[i].Factor?)
    ensures forall j | 0 <= j < i :: !cs[j].Factor?
  {
    if cs == [] || cs[0].Factor? then 0 else
      var i := FirstFactor(cs[1..]);
      assert forall j | 1 <= j < |cs| :: cs[j] == cs[1..][j - 1];
      1 + i
  }

  /** How a code was accepted: by the time-based check, or by the recovery code at a position. */
  datatype Proof = ByCode | ByRecovery(at: nat)

  predicate Proves(totp: Totp, code: string, at: nat, k: Checks, proof: Proof)
  {
    match proof
    case ByCode => k.code(totp, code, at) == Ok(true)
    case ByRecovery(i) => k.code(totp, code, at) == Ok(false) && FirstCode(totp.recoveryCodes, code, k.recovery, i)
  }

  lemma ProofUnique(totp: Totp, code: string, at: nat, k: Checks, p: Proof, q: Proof)
    requires Proves(totp, code, at, k, p) && Proves(totp, code, at, k, q)
    ensures p == q
  {
    assert p.ByRecovery? && q.ByRecovery? ==> k.recovery(code, totp.recoveryCodes[p.at]) == Ok(true);
    assert p.ByRecovery? && q.ByRecovery? ==> k.recovery(code, totp.recoveryCodes[q.at]) == Ok(true);
  }

  function Spent(totp: Totp, proof: Proof): Totp
    requires proof.ByRecovery? ==> proof.at < |totp.recoveryCodes|
  {
    match proof
    case ByCode => totp
    case ByRecovery(i) => totp.(recoveryCodes := totp.recoveryCodes[..i] + totp.recoveryCodes[i + 1..])
  }

  /** A factor accepts a code by the time-based check, or, that having said no and every stored hash having
      been checked without error, by one of its recovery codes. */
  predicate Accepts(totp: Totp, code: string, at: nat, k: Checks)
  {
    || k.code(totp, code, at) == Ok(true)
    || (&& k.code(totp, code, at) == Ok(false)
        && (forall i | 0 <= i < |totp.recoveryCodes| :: k.recovery(code, totp.recoveryCodes[i]).Ok?)
        && (exists i | 0 <= i < |totp.recoveryCodes| :: k.recovery(code, totp.recoveryCodes[i]) == Ok(true)))
  }

  /** Checking the code ends in an error. */
  predicate Breaks(totp: Totp, code: string, at: nat, k: Checks)
  {
    || k.code(totp, code, at).Err?
    || (&& k.code(totp, code, at) == Ok(false)
        && exists i | 0 <= i < |totp.recoveryCodes| :: k.recovery(code, totp.recoveryCodes[i]).Err?)
  }

  /** Only the first enabled factor has a say. */
  predicate Acceptable(cs: seq<Credential>, code: string, at: nat, k: Checks)
  {
    FirstEnabled(cs) < |cs| && Accepts(cs[FirstEnabled(cs)].totp, code, at, k)
  }

  predicate Fails(cs: seq<Credential>, code: string, at: nat, k: Checks)
  {
    FirstEnabled(cs) < |cs| && Breaks(cs[FirstEnabled(cs)].totp, code, at, k)
  }

  lemma YesOrNo(r: Result<bool>)
    ensures r.Err? || r == Ok(true) || r == Ok(false)
  {
    if r.Ok? {
      if r.value { assert r == Ok(true); } else { assert r == Ok(false); }
    }
  }

  /** One factor's answer. */
  method CheckFactor(totp: Totp, code: string, at: nat, k: Checks)
    returns (r: Result<bool>, after: Totp, ghost proof: Proof)
    ensures r == Ok(true) <==> Accepts(totp, code, at, k)
    ensures r.Err? <==> Breaks(totp, code, at, k)
    ensures r == Ok(true) ==> Proves(totp, code, at, k, proof) && after == Spent(totp, proof)
    ensures r != Ok(true) ==> after == totp
  {
    proof, after := ByCode, totp;
    var codeOk := k.code(totp, code, at);
    YesOrNo(codeOk);
    if codeOk.Err? { return Err(codeOk.error), totp, proof; }
    if codeOk.value { return Ok(true), totp, proof; }
    var codes, left := totp.recoveryCodes, [];
    r, left := ConsumeRecoveryCode(codes, code, k.recovery);
    YesOrNo(r);
    assert r.Ok? ==> forall i | 0 <= i < |codes| :: k.recovery(code, codes[i]).Ok?;
    if r == Ok(true) {
      ghost var i: nat :| FirstCode(codes, code, k.recovery, i) && left == codes[..i] + codes[i + 1..];
      assert k.recovery(code, codes[i]) == Ok(true);
      proof := ByRecovery(i);
      after := totp.(recoveryCodes := left);
    }
  }

  /** The challenge against the first enabled factor. */
  method Complete(cs: seq<Credential>, code: string, at: nat, k: Checks)
    returns (r: Result<bool>, after: seq<Credential>, ghost proof: Proof)
    ensures r == Ok(true) <==> Acceptable(cs, code, at, k)
    ensures r.Err? <==> Fails(cs, code, at, k)
    ensures r == Ok(true) ==>
              var i := FirstEnabled(cs);
              Proves(cs[i].totp, code, at, k, proof) && after == cs[i := Factor(Spent(cs[i].totp, proof))]
    ensures r != Ok(true) ==> after == cs
  {
    after, proof := cs, ByCode;
    var i := FirstEnabled(cs);
    if i == |cs| { return Ok(false), cs, proof; }
    var totp;
    r, totp, proof := CheckFactor(cs[i].totp, code, at, k);
    if r == Ok(true) { after := cs[i := Factor(totp)]; }
  }

  // ----- The write-back -----

  lemma {:induction false} FactorsFront(cs: seq<Credential>)
    requires cs != []
    ensures Factors(cs) == Factors(cs[1..]) + if cs[0].Factor? then 1 else 0
    ensures Codes(cs) == Codes(cs[1..]) + if cs[0].Factor? then multiset(cs[0].totp.recoveryCodes) else multiset{}
  {
    var n := |cs| - 1;
    if n > 0 {
      FactorsFront(cs[..n]);
      assert cs[..n][1..] == cs[1..][..n - 1];
    }
  }

  /** With a single factor, the first factor is the factor. */
  lemma {:induction false} OneFactor(cs: seq<Credential>, i: nat)
    requires Factors(cs) <= 1 && i < |cs| && cs[i].Factor?
    ensures FirstFactor(cs) == i && Codes(cs) == multiset(cs[i].totp.recoveryCodes)
  {
    FactorsFront(cs);
    if i == 0 {
      NoFactor(cs[1..]);
    } else {
      assert cs[1..][i - 1] == cs[i];
      AtLeastOne(cs[1..], i - 1);
      OneFactor(cs[1..], i - 1);
    }
  }

  lemma {:induction false} NoFactor(cs: seq<Credential>)
    requires Factors(cs) == 0
    ensures Codes(cs) == multiset{}
  {
    if cs != [] { NoFactor(cs[..|cs| - 1]); }
  }

  lemma {:induction false} AtLeastOne(cs: seq<Credential>, i: nat)
    requires i < |cs| && cs[i].Factor?
    ensures Factors(cs) >= 1
  {
    if i < |cs| - 1 { AtLeastOne(cs[..|cs| - 1], i); }
  }

  lemma {:induction false} ReplaceFactor(cs: seq<Credential>, i: nat, totp: Totp)
    requires i < |cs| && cs[i].Factor?
    ensures Factors(cs[i := Factor(totp)]) == Factors(cs)
    decreases |cs|
  {
    var n := |cs| - 1;
    if i < n {
      ReplaceFactor(cs[..n], i, totp);
      assert cs[i := Factor(totp)][..n] == cs[..n][i := Factor(totp)];
    } else {
      assert cs[i := Factor(totp)][..n] == cs[..n];
    }
  }

  /** What the handler writes back is the factor it consumed. */
  lemma WrittenIsConsumed(cs: seq<Credential>, totp: Totp)
    requires Single(cs) && FirstEnabled(cs) < |cs|
    ensures var i := FirstEnabled(cs);
            var after := cs[i := Factor(totp)];
            FirstFactor(after) == i && after[i].totp == totp && Codes(cs) == multiset(cs[i].totp.recoveryCodes)
  {
    var i := FirstEnabled(cs);
    ReplaceFactor(cs, i, totp);
    OneFactor(cs[i := Factor(totp)], i);
    OneFactor(cs, i);
  }

  /** With two factors, the first disabled, it would be the other one. */
  lemma TwoFactorsMismatch()
    ensures exists cs, totp :: FirstEnabled(cs) < |cs|
                               && FirstFactor(cs[FirstEnabled(cs) := Factor(totp)]) != FirstEnabled(cs)
  {
    var off, on := Totp("a", false, [], 0), Totp("b", true, [], 0);
    var cs := [Factor(off), Factor(on)];
    assert FirstEnabled(cs) == 1;
    assert FirstFactor(cs[1 := Factor(on)]) == 0;
  }

  /** Stored codes and the code spent add up to the codes before. */
  lemma SpendingConserves(totp: Totp, proof: Proof)
    requires proof.ByRecovery? ==> proof.at < |totp.recoveryCodes|
    ensures multiset(Spent(totp, proof).recoveryCodes) + SpentCode(totp, proof) == multiset(totp.recoveryCodes)
  {
    if proof.ByRecovery? {
      var codes, i := totp.recoveryCodes, proof.at;
      assert codes == codes[..i] + [codes[i]] + codes[i + 1..];
    }
  }

  function SpentCode(totp: Totp, proof: Proof): multiset<string>
    requires proof.ByRecovery? ==> proof.at < |totp.recoveryCodes|
  {
    match proof case ByCode => multiset{} case ByRecovery(i) => multiset{totp.recoveryCodes[i]}
  }

  // ----- Runs of one account's list between enrolments -----

  /** Everything that may happen to a list while the factor enrolled stays: changes of passwords, and
      second-factor codes accepted and written back. */
  datatype Edit = Ordinary(edit: ListEdit) | Accepted(proof: Proof)

  predicate Possible(cs: seq<Credential>, e: Edit)
  {
    match e
    case Ordinary(edit) => edit.SetPrimary? || edit.AddApp? || edit.RevokeApp?
    case Accepted(proof) =>
      var i := FirstEnabled(cs);
      i < |cs| && (proof.ByRecovery? ==> proof.at < |cs[i].totp.recoveryCodes|)
  }

  /** The list the handler writes: the first factor found after the challenge replaces every factor stored. */
  function WrittenBack(cs: seq<Credential>, after: seq<Credential>): seq<Credential>
  {
    var j := FirstFactor(after);
    if j == |after| then cs else WithoutFactor(cs) + [Factor(after[j].totp)]
  }

  function After(cs: seq<Credential>, e: Edit): seq<Credential>
    requires Possible(cs, e)
  {
    match e
    case Ordinary(edit) => EditedList(cs, edit)
    case Accepted(proof) =>
      var i := FirstEnabled(cs);
      WrittenBack(cs, cs[i := Factor(Spent(cs[i].totp, proof))])
  }

  function SpentBy(cs: seq<Credential>, e: Edit): multiset<string>
    requires Possible(cs, e)
  {
    if e.Accepted? then SpentCode(cs[FirstEnabled(cs)].totp, e.proof) else multiset{}
  }

  lemma WrittenBackIs(cs: seq<Credential>, totp: Totp)
    requires Single(cs) && FirstEnabled(cs) < |cs|
    ensures WrittenBack(cs, cs[FirstEnabled(cs) := Factor(totp)]) == WithoutFactor(cs) + [Factor(totp)]
  {
    WrittenIsConsumed(cs, totp);
  }

  lemma ReplacedCounts(cs: seq<Credential>, totp: Totp)
    requires Single(cs)
    ensures var r := WithoutFactor(cs) + [Factor(totp)]; Single(r) && Codes(r) == multiset(totp.recoveryCodes)
  {
    WithoutFactorCounts(cs);
    Snoc(WithoutFactor(cs), Factor(totp));
  }

  lemma AcceptedConserves(cs: seq<Credential>, proof: Proof)
    requires Single(cs) && Possible(cs, Accepted(proof))
    ensures Single(After(cs, Accepted(proof)))
    ensures Codes(After(cs, Accepted(proof))) + SpentBy(cs, Accepted(proof)) == Codes(cs)
  {
    var totp := cs[FirstEnabled(cs)].totp;
    WrittenIsConsumed(cs, totp);
    WrittenBackIs(cs, Spent(totp, proof));
    ReplacedCounts(cs, Spent(totp, proof));
    SpendingConserves(totp, proof);
  }

  /** A code accepted and written back changes no entry but the factor, and of that only its recovery codes. */
  lemma AcceptedKeepsOthers(cs: seq<Credential>, proof: Proof, c: Credential)
    requires Single(cs) && Possible(cs, Accepted(proof))
    ensures var totp := cs[FirstEnabled(cs)].totp;
            multiset(After(cs, Accepted(proof)))[c] ==
            if c.Factor? then Once(c.totp == totp.(recoveryCodes := Spent(totp, proof).recoveryCodes))
            else multiset(cs)[c]
  {
    var totp := cs[FirstEnabled(cs)].totp;
    WrittenBackIs(cs, Spent(totp, proof));
    EditedListExact(cs, SetFactor(Spent(totp, proof)), c);
  }

  lemma EditConserves(cs: seq<Credential>, e: Edit)
    requires Single(cs) && Possible(cs, e)
    ensures Single(After(cs, e)) && Codes(After(cs, e)) + SpentBy(cs, e) == Codes(cs)
  {
    match e
    case Ordinary(edit) => EditedListKeeps(cs, edit);
    case Accepted(proof) => AcceptedConserves(cs, proof);
  }

  predicate Runs(cs: seq<Credential>, edits: seq<Edit>)
    decreases |edits|
  {
    edits == [] || (Possible(cs, edits[0]) && Runs(After(cs, edits[0]), edits[1..]))
  }

  function Final(cs: seq<Credential>, edits: seq<Edit>): seq<Credential>
    requires Runs(cs, edits)
    decreases |edits|
  {
    if edits == [] then cs else Final(After(cs, edits[0]), edits[1..])
  }

  function AllSpent(cs: seq<Credential>, edits: seq<Edit>): multiset<string>
    requires Runs(cs, edits)
    decreases |edits|
  {
    if edits == [] then multiset{} else SpentBy(cs, edits[0]) + AllSpent(After(cs, edits[0]), edits[1..])
  }

  /** Between enrolments, the codes stored and the codes spent are together the codes enrolled: none is
      lost and none is accepted twice. */
  lemma {:induction false} CodesConserved(cs: seq<Credential>, edits: seq<Edit>)
    requires Single(cs) && Runs(cs, edits)
    ensures Single(Final(cs, edits)) && Codes(Final(cs, edits)) + AllSpent(cs, edits) == Codes(cs)
    decreases |edits|
  {
    if edits != [] {
      EditConserves(cs, edits[0]);
      CodesConserved(After(cs, edits[0]), edits[1..]);
    }
  }
}
