/** What a store of keys and certificates says about trust: the chains that make a key
    trusted, and the verdict a recursive definition gives on an acyclic signer graph. */
module CertTrust {
  import opened CertAuth
  import opened Wrappers

  type Bytes = seq<Byte>
  type KeyId = nat

  datatype Trust = Revoked | NotTrusted | UnknownWorking | Unknown | Trusted | Hardcoded {
    predicate IsTrusted() { Trusted? || Hardcoded? }

    /** Trust that is not the outcome of an evaluation. */
    predicate IsTerminal() { Revoked? || Hardcoded? }
  }

  datatype Cert = Cert(signedData: Bytes, caKeyId: KeyId, signature: Bytes, scope: CertAuthScope, timeCreated: int)

  /** A key and the certificates presented for it.  A key that was only ever revoked has no key data. */
  datatype PublicKey = PublicKey(trust: Trust, keyData: Bytes, certs: seq<Cert>, effective: CertAuthScope, newest: int)

  type Keys = map<KeyId, PublicKey>

  /** A parsed certificate message. */
  datatype CertMsg = CertMsg(
    identityBound: bool, ed25519: bool, keyData: Bytes, timeCreated: int, timeExpiry: int,
    popIds: seq<Item>, appIds: seq<Item>)

  /** The primitives the store relies on: signature verification by a public key, the hash
      that identifies a key (0 for invalid key data), the message parser, and the root key. */
  datatype Crypto = Crypto(
    verify: (Bytes, Bytes, Bytes) -> bool, keyIdOf: Bytes -> KeyId, parse: Bytes -> Option<CertMsg>, rootKey: Bytes)

  predicate Verifies(C: Crypto, key: PublicKey, data: Bytes, signature: Bytes) {
    key.keyData != [] && C.verify(key.keyData, data, signature)
  }

  // ---------- Well-formed stores ----------

  predicate GoodCert(c: Cert) {
    c.scope.Grants() && c.signedData != [] && |c.signature| == 64
  }

  ghost predicate WellFormed(C: Crypto, keys: Keys) {
    forall id | id in keys ::
      && (forall c | c in keys[id].certs :: GoodCert(c))
      && (keys[id].keyData == [] ==> keys[id].certs == [] && keys[id].trust.Revoked?)
      && (!keys[id].trust.IsTerminal() ==> keys[id].certs != [])
      && (keys[id].trust.IsTrusted() ==> keys[id].effective.Grants())
      && (keys[id].trust.Hardcoded? ==>
            keys[id].effective == FULL_SCOPE && keys[id].keyData == C.rootKey && id == C.keyIdOf(C.rootKey))
  }

  /** The certificate c makes a key trusted: its signer is another, trusted key whose
      signature verifies, and the rights left after intersecting with the signer's are scope. */
  predicate Link(C: Crypto, keys: Keys, id: KeyId, c: Cert, scope: CertAuthScope) {
    && c.caKeyId in keys && c.caKeyId != id
    && keys[c.caKeyId].trust.IsTrusted()
    && Verifies(C, keys[c.caKeyId], c.signedData, c.signature)
    && scope == ScopeIntersection(keys[c.caKeyId].effective, c.scope)
    && scope.Grants()
  }

  /** The certificate that trust in a key rests on. */
  function NewestCert(key: PublicKey): Cert
    requires 0 <= key.newest < |key.certs|
  {
    key.certs[key.newest]
  }

  predicate Linked(C: Crypto, keys: Keys, id: KeyId)
    requires id in keys
  {
    var k := keys[id];
    0 <= k.newest < |k.certs| && Link(C, keys, id, NewestCert(k), k.effective)
  }

  /** Every trusted key is linked to its signer, and age orders the trusted keys so that a
      signer that is not hardcoded came to be trusted first. */
  ghost predicate Sound(C: Crypto, keys: Keys, age: map<KeyId, nat>) {
    forall id | id in keys && keys[id].trust.Trusted? ::
      && id in age && Linked(C, keys, id)
      && var ca := NewestCert(keys[id]).caKeyId;
         keys[ca].trust.Trusted? ==> ca in age && age[ca] < age[id]
  }

  // ---------- Chains ----------

  /** A path from chain[0] along newest certificates to a hardcoded key. */
  ghost predicate IsChain(C: Crypto, keys: Keys, chain: seq<KeyId>) {
    && chain != []
    && (forall i | 0 <= i < |chain| :: chain[i] in keys)
    && (forall i | 0 <= i < |chain| - 1 ::
          && keys[chain[i]].trust.Trusted? && Linked(C, keys, chain[i])
          && NewestCert(keys[chain[i]]).caKeyId == chain[i + 1])
    && keys[chain[|chain| - 1]].trust.Hardcoded?
  }

  /** The earliest expiry along a chain. */
  ghost function ChainExpiry(C: Crypto, keys: Keys, chain: seq<KeyId>): int
    requires IsChain(C, keys, chain)
  {
    if |chain| == 1 then TIME_MAX
    else Min(ChainExpiry(C, keys, chain[1..]), NewestCert(keys[chain[0]]).scope.timeExpiry)
  }

  /** Every certificate on the chain grants the item. */
  ghost predicate ChainGrants(C: Crypto, keys: Keys, chain: seq<KeyId>, right: Right, x: Item)
    requires IsChain(C, keys, chain)
  {
    forall i | 0 <= i < |chain| - 1 :: NewestCert(keys[chain[i]]).scope.Of(right).HasItem(x)
  }

  ghost predicate ChainReservedFree(C: Crypto, keys: Keys, chain: seq<KeyId>, right: Right)
    requires IsChain(C, keys, chain)
  {
    forall i | 0 <= i < |chain| - 1 :: NewestCert(keys[chain[i]]).scope.Of(right).ReservedFree()
  }

  /** Link i of a chain intersects two lists that share just the reserved item. */
  predicate LinkWidens(keys: Keys, chain: seq<KeyId>, right: Right, i: nat)
    requires i < |chain| - 1 && chain[i] in keys && chain[i + 1] in keys
    requires 0 <= keys[chain[i]].newest < |keys[chain[i]].certs|
  {
    Widens(keys[chain[i + 1]].effective.Of(right), NewestCert(keys[chain[i]]).scope.Of(right))
  }

  ghost predicate ChainWidens(C: Crypto, keys: Keys, chain: seq<KeyId>, right: Right)
    requires IsChain(C, keys, chain)
  {
    exists i: nat | i < |chain| - 1 :: LinkWidens(keys, chain, right, i)
  }

  /** From some link up, the certificates grant nothing in common but the reserved item. */
  ghost predicate CertsShareReserved(C: Crypto, keys: Keys, chain: seq<KeyId>, right: Right)
    requires IsChain(C, keys, chain)
    decreases |chain|
  {
    && |chain| > 1
    && (|| GrantsJustReserved(C, keys, chain, right)
        || (ChainTail(C, keys, chain, right, 0); CertsShareReserved(C, keys, chain[1..], right)))
  }

  ghost predicate GrantsJustReserved(C: Crypto, keys: Keys, chain: seq<KeyId>, right: Right)
    requires IsChain(C, keys, chain)
  {
    forall x: Item :: ChainGrants(C, keys, chain, right, x) <==> x == INVALID_ITEM
  }

  ghost predicate Distinct(s: seq<KeyId>) {
    forall i, j | 0 <= i < j < |s| :: s[i] != s[j]
  }

  lemma ExtendChain(C: Crypto, keys: Keys, id: KeyId, rest: seq<KeyId>)
    requires IsChain(C, keys, rest)
    requires id in keys && keys[id].trust.Trusted? && Linked(C, keys, id)
    requires NewestCert(keys[id]).caKeyId == rest[0]
    ensures IsChain(C, keys, [id] + rest)
  {
    hide Link;
    var chain := [id] + rest;
    forall i | 0 <= i < |chain| - 1
      ensures keys[chain[i]].trust.Trusted? && Linked(C, keys, chain[i])
      ensures NewestCert(keys[chain[i]]).caKeyId == chain[i + 1]
    {
      assert i > 0 ==> chain[i] == rest[i - 1] && chain[i + 1] == rest[i];
    }
  }

  /** Following the newest certificate of a trusted key reaches the hardcoded root without
      meeting a key twice, and without ever meeting a revoked one. */
  lemma {:induction false} TrustedHasChain(C: Crypto, keys: Keys, age: map<KeyId, nat>, id: KeyId)
    returns (chain: seq<KeyId>)
    requires Sound(C, keys, age)
    requires id in keys && keys[id].trust.IsTrusted()
    ensures IsChain(C, keys, chain) && chain[0] == id && Distinct(chain)
    ensures forall i | 0 <= i < |chain| :: keys[chain[i]].trust.IsTrusted()
    ensures forall i | 0 <= i < |chain| && keys[chain[i]].trust.Trusted? ::
              keys[id].trust.Trusted? && chain[i] in age && age[chain[i]] <= age[id]
    decreases if id in age && keys[id].trust.Trusted? then age[id] + 1 else 0
  {
    if keys[id].trust.Hardcoded? {
      chain := [id];
    } else {
      var ca := NewestCert(keys[id]).caKeyId;
      assert Linked(C, keys, id);
      var rest := TrustedHasChain(C, keys, age, ca);
      hide Sound, Linked;
      ExtendChain(C, keys, id, rest);
      chain := [id] + rest;
      assert forall k | 1 <= k < |chain| :: chain[k] == rest[k - 1];
    }
  }

  /** The scope of a key is the meet of its chain: it expires with the first certificate to
      expire and, unless a link widens, grants the apps and the POPs that all of them grant. */
  lemma {:induction false} ChainScope(C: Crypto, keys: Keys, chain: seq<KeyId>, right: Right, x: Item)
    requires WellFormed(C, keys) && IsChain(C, keys, chain) && x != INVALID_ITEM
    ensures keys[chain[0]].effective.timeExpiry == ChainExpiry(C, keys, chain)
    ensures ChainGrants(C, keys, chain, right, x) ==> keys[chain[0]].effective.Of(right).HasItem(x)
    ensures !ChainWidens(C, keys, chain, right) && keys[chain[0]].effective.Of(right).HasItem(x)
            ==> ChainGrants(C, keys, chain, right, x)
    ensures ChainWidens(C, keys, chain, right) ==> !ChainGrants(C, keys, chain, right, x)
    decreases |chain|
  {
    if |chain| > 1 {
      var rest := chain[1..];
      ChainTail(C, keys, chain, right, x);
      WidensTail(C, keys, chain, right);
      ChainScope(C, keys, rest, right, x);
      var own, above := NewestCert(keys[chain[0]]).scope.Of(right), keys[rest[0]].effective.Of(right);
      HasItemOfIntersection(above, own, x);
      hide Widens, Intersection, ChainWidens, ChainGrants;
    }
  }

  lemma ChainTail(C: Crypto, keys: Keys, chain: seq<KeyId>, right: Right, x: Item)
    requires IsChain(C, keys, chain) && |chain| > 1
    ensures IsChain(C, keys, chain[1..])
    ensures ChainGrants(C, keys, chain, right, x)
       <==> NewestCert(keys[chain[0]]).scope.Of(right).HasItem(x) && ChainGrants(C, keys, chain[1..], right, x)
    ensures ChainReservedFree(C, keys, chain, right)
       <==> NewestCert(keys[chain[0]]).scope.Of(right).ReservedFree() && ChainReservedFree(C, keys, chain[1..], right)
  {
    var rest := chain[1..];
    assert forall i | 1 <= i < |chain| - 1 :: chain[i] == rest[i - 1];
  }

  lemma WidensTail(C: Crypto, keys: Keys, chain: seq<KeyId>, right: Right)
    requires IsChain(C, keys, chain) && |chain| > 1 && IsChain(C, keys, chain[1..])
    ensures ChainWidens(C, keys, chain, right)
       <==> Widens(keys[chain[1]].effective.Of(right), NewestCert(keys[chain[0]]).scope.Of(right))
            || ChainWidens(C, keys, chain[1..], right)
  {
    hide Widens, Link;
    var rest := chain[1..];
    if i: nat :| i < |chain| - 1 && LinkWidens(keys, chain, right, i) {
      assert i > 0 ==> LinkWidens(keys, rest, right, i - 1);
    }
    if i: nat :| i < |rest| - 1 && LinkWidens(keys, rest, right, i) {
      assert LinkWidens(keys, chain, right, i + 1);
    }
    assert LinkWidens(keys, chain, right, 0)
       <==> Widens(keys[chain[1]].effective.Of(right), NewestCert(keys[chain[0]]).scope.Of(right));
  }

  /** Whether a chain widens can be read off its certificates alone; unless it does, the scope
      of the key has the reserved item, too, just when all certificates have it. */
  lemma {:induction false} WidensByCerts(C: Crypto, keys: Keys, chain: seq<KeyId>, right: Right)
    requires WellFormed(C, keys) && IsChain(C, keys, chain)
    ensures ChainWidens(C, keys, chain, right) <==> CertsShareReserved(C, keys, chain, right)
    ensures !ChainWidens(C, keys, chain, right) ==>
              forall x :: keys[chain[0]].effective.Of(right).HasItem(x) <==> ChainGrants(C, keys, chain, right, x)
    decreases |chain|
  {
    if |chain| > 1 {
      var rest := chain[1..];
      var own, above := NewestCert(keys[chain[0]]).scope.Of(right), keys[chain[1]].effective.Of(right);
      ChainTail(C, keys, chain, right, 0);
      WidensTail(C, keys, chain, right);
      WidensByCerts(C, keys, rest, right);
      LinkGrants(C, keys, chain, right);
      if !ChainWidens(C, keys, rest, right) {
        hide IsChain, Link, WellFormed, Widens, ChainWidens, ChainGrants, Intersection, CertAuthParameter.HasItem;
        WidensByItems(above, own);
        forall x: Item
          ensures ChainGrants(C, keys, chain, right, x) <==> above.HasItem(x) && own.HasItem(x)
        {
          ChainTail(C, keys, chain, right, x);
        }
      }
    }
  }

  lemma LinkGrants(C: Crypto, keys: Keys, chain: seq<KeyId>, right: Right)
    requires WellFormed(C, keys) && IsChain(C, keys, chain) && |chain| > 1
    ensures NewestCert(keys[chain[0]]).scope.Grants() && keys[chain[1]].effective.Grants()
    ensures keys[chain[0]].effective.Of(right)
            == Intersection(keys[chain[1]].effective.Of(right), NewestCert(keys[chain[0]]).scope.Of(right))
  {
    assert NewestCert(keys[chain[0]]) in keys[chain[0]].certs;
    assert Linked(C, keys, chain[0]);
  }

  /** Without the reserved item in its certificates a chain never widens. */
  lemma {:induction false} ReservedFreeNeverWidens(C: Crypto, keys: Keys, chain: seq<KeyId>, right: Right)
    requires WellFormed(C, keys) && IsChain(C, keys, chain) && ChainReservedFree(C, keys, chain, right)
    ensures keys[chain[0]].effective.Of(right).ReservedFree() && !ChainWidens(C, keys, chain, right)
    decreases |chain|
  {
    if |chain| > 1 {
      ChainTail(C, keys, chain, right, 0);
      WidensTail(C, keys, chain, right);
      ReservedFreeNeverWidens(C, keys, chain[1..], right);
      ReservedFreeIntersection(keys[chain[1]].effective.Of(right), NewestCert(keys[chain[0]]).scope.Of(right));
      hide Widens, Intersection, ChainWidens, ChainReservedFree;
    }
  }

  /** The scope of a key grants exactly the apps that all certificates on its chain grant, iff
      no link of the chain widens in apps; and likewise for POPs. */
  lemma ChainScopeExactly(C: Crypto, keys: Keys, chain: seq<KeyId>, right: Right)
    requires WellFormed(C, keys) && IsChain(C, keys, chain)
    ensures (forall x | x != INVALID_ITEM ::
               keys[chain[0]].effective.Of(right).HasItem(x) <==> ChainGrants(C, keys, chain, right, x))
       <==> !ChainWidens(C, keys, chain, right)
  {
    var items := keys[chain[0]].effective.Of(right).items;
    assert StrictlySorted(items) && items != [];
    var some: Item := if items == [INVALID_ITEM] then 0 else items[0];
    GrantsSome(items, some);
    forall x | x != INVALID_ITEM
      ensures ChainGrants(C, keys, chain, right, x) ==> keys[chain[0]].effective.Of(right).HasItem(x)
      ensures !ChainWidens(C, keys, chain, right) && keys[chain[0]].effective.Of(right).HasItem(x)
              ==> ChainGrants(C, keys, chain, right, x)
      ensures ChainWidens(C, keys, chain, right) ==> !ChainGrants(C, keys, chain, right, x)
    {
      ChainScope(C, keys, chain, right, x);
    }
    hide IsChain, ChainWidens, ChainGrants, WellFormed;
  }

  lemma GrantsSome(items: seq<Item>, some: Item)
    requires StrictlySorted(items) && items != [] && some == if items == [INVALID_ITEM] then 0 else items[0]
    ensures CertAuthParameter(items).HasItem(some) && some != INVALID_ITEM
  {
    if |items| > 1 {
      assert items[0] < items[1];
    } else {
      assert items == [items[0]];
    }
  }

  /** A store in which key 3 is signed by key 2 and key 2 by the root. */
  ghost predicate TwoSigned(C: Crypto, keys: Keys, c2: Cert, c3: Cert) {
    && keys.Keys == {1, 2, 3} && C.rootKey != [] && C.keyIdOf(C.rootKey) == 1
    && GoodCert(c2) && GoodCert(c3) && c2.caKeyId == 1 && c3.caKeyId == 2
    && keys[1] == PublicKey(Hardcoded, C.rootKey, [], FULL_SCOPE, -1)
    && keys[2] == PublicKey(Trusted, [2], [c2], ScopeIntersection(FULL_SCOPE, c2.scope), 0)
    && keys[3] == PublicKey(Trusted, [3], [c3], ScopeIntersection(c2.scope, c3.scope), 0)
    && Verifies(C, keys[1], c2.signedData, c2.signature) && Verifies(C, keys[2], c3.signedData, c3.signature)
    && keys[3].effective.Grants() && keys[2].effective == c2.scope
  }

  lemma TwoSignedIsSound(C: Crypto, keys: Keys, c2: Cert, c3: Cert)
    requires TwoSigned(C, keys, c2, c3)
    ensures WellFormed(C, keys) && Sound(C, keys, map[2 := 0, 3 := 1]) && IsChain(C, keys, [3, 2, 1])
  {
    hide Verifies, Intersection;
    assert NewestCert(keys[2]) == c2 && NewestCert(keys[3]) == c3;
    assert Linked(C, keys, 2) && Linked(C, keys, 3);
  }

  /** The certificate of key 2 is for app 5, that of key 3 for app 7, and both also list the
      reserved item.  Key 3 is granted app 9. */
  lemma WideningStore(data: Bytes, signature: Bytes)
    returns (C: Crypto, keys: Keys, age: map<KeyId, nat>, chain: seq<KeyId>)
    requires data != [] && |signature| == 64
    ensures WellFormed(C, keys) && Sound(C, keys, age) && IsChain(C, keys, chain)
    ensures ChainWidens(C, keys, chain, App) && keys[chain[0]].effective.apps.HasItem(9)
    ensures forall i | 0 <= i < |chain| - 1 :: !NewestCert(keys[chain[i]]).scope.apps.HasItem(9)
  {
    hide WellFormed, Sound, IsChain, ChainWidens;
    var five, seven := CertAuthParameter([5, INVALID_ITEM]), CertAuthParameter([7, INVALID_ITEM]);
    var c2 := Cert(data, 1, signature, CertAuthScope(ALL_ITEMS, five, 10), 0);
    var c3 := Cert(data, 2, signature, CertAuthScope(ALL_ITEMS, seven, 10), 0);
    C := Crypto((key, signed, sign) => true, key => 1, message => None, [1]);
    ReservedItemWidensIntersection();
    keys := map[
      1 := PublicKey(Hardcoded, C.rootKey, [], FULL_SCOPE, -1),
      2 := PublicKey(Trusted, [2], [c2], ScopeIntersection(FULL_SCOPE, c2.scope), 0),
      3 := PublicKey(Trusted, [3], [c3], ScopeIntersection(c2.scope, c3.scope), 0)];
    age, chain := map[2 := 0, 3 := 1], [3, 2, 1];
    assert keys[3].effective == CertAuthScope(ALL_ITEMS, ALL_ITEMS, 10);
    TwoSignedIsSound(C, keys, c2, c3);
    assert LinkWidens(keys, chain, App, 0);
    LinkWidensChain(C, keys, chain, App, 0);
  }

  lemma LinkWidensChain(C: Crypto, keys: Keys, chain: seq<KeyId>, right: Right, i: nat)
    requires IsChain(C, keys, chain) && i < |chain| - 1 && LinkWidens(keys, chain, right, i)
    ensures ChainWidens(C, keys, chain, right)
  {
  }

  /** The expiry of a chain has not passed iff no certificate on it has expired. */
  lemma {:induction false} ChainUnexpired(C: Crypto, keys: Keys, chain: seq<KeyId>, now: int)
    requires IsChain(C, keys, chain)
    ensures now <= ChainExpiry(C, keys, chain)
       <==> now <= TIME_MAX && forall i | 0 <= i < |chain| - 1 :: now <= NewestCert(keys[chain[i]]).scope.timeExpiry
    decreases |chain|
  {
    if |chain| > 1 {
      var rest := chain[1..];
      assert forall i | 1 <= i < |chain| - 1 :: chain[i] == rest[i - 1];
      assert forall i | 0 <= i < |rest| - 1 :: rest[i] == chain[i + 1];
      hide Link;
      ChainUnexpired(C, keys, rest, now);
    }
  }

  /** A chain from id to the root on which no key repeats or is revoked, every signature
      verifies, nothing has expired and, unless a link widens, every certificate grants the app. */
  ghost predicate AuthorisedChain(C: Crypto, keys: Keys, chain: seq<KeyId>, id: KeyId, now: int, app: Item) {
    && IsChain(C, keys, chain) && chain[0] == id && Distinct(chain)
    && keys[chain[|chain| - 1]].keyData == C.rootKey
    && (forall i | 0 <= i < |chain| :: !keys[chain[i]].trust.Revoked?)
    && (forall i | 0 <= i < |chain| - 1 :: SignedAndValid(C, keys[chain[i]], keys[chain[i + 1]], now))
    && (!ChainWidens(C, keys, chain, App) ==> ChainGrants(C, keys, chain, App, app))
  }

  /** The signer's key verifies the newest certificate of the key, which has not expired. */
  ghost predicate SignedAndValid(C: Crypto, key: PublicKey, signer: PublicKey, now: int) {
    && 0 <= key.newest < |key.certs|
    && var c := key.certs[key.newest];
       signer.keyData != [] && C.verify(signer.keyData, c.signedData, c.signature) && now <= c.scope.timeExpiry
  }

  lemma AuthorisedByChain(C: Crypto, keys: Keys, age: map<KeyId, nat>, id: KeyId, now: int, app: Item)
    returns (chain: seq<KeyId>)
    requires WellFormed(C, keys) && Sound(C, keys, age) && app != INVALID_ITEM
    requires id in keys && keys[id].trust.IsTrusted()
    requires now <= keys[id].effective.timeExpiry && keys[id].effective.apps.HasItem(app)
    ensures AuthorisedChain(C, keys, chain, id, now, app)
  {
    hide WellFormed, Sound, Link, ChainWidens, ChainGrants, ChainExpiry, CertAuthParameter.HasItem;
    chain := TrustedHasChain(C, keys, age, id);
    RootEndsChain(C, keys, chain);
    ChainScope(C, keys, chain, App, app);
    ChainUnexpired(C, keys, chain, now);
    forall i | 0 <= i < |chain| - 1
      ensures SignedAndValid(C, keys[chain[i]], keys[chain[i + 1]], now)
    {
      LinkVerifies(C, keys, chain, i);
    }
    hide SignedAndValid, Linked;
    assert keys[chain[0]].effective.Of(App) == keys[id].effective.apps;
  }

  lemma RootEndsChain(C: Crypto, keys: Keys, chain: seq<KeyId>)
    requires WellFormed(C, keys) && IsChain(C, keys, chain)
    ensures keys[chain[|chain| - 1]].keyData == C.rootKey
  {
    hide Linked;
  }

  lemma LinkVerifies(C: Crypto, keys: Keys, chain: seq<KeyId>, i: nat)
    requires IsChain(C, keys, chain) && i < |chain| - 1
    ensures 0 <= keys[chain[i]].newest < |keys[chain[i]].certs|
    ensures var c := NewestCert(keys[chain[i]]);
            keys[chain[i + 1]].keyData != [] && C.verify(keys[chain[i + 1]].keyData, c.signedData, c.signature)
  {
    assert Linked(C, keys, chain[i]);
  }

  // ---------- The verdict on an acyclic graph ----------

  /** rank falls from every key that has to be evaluated to each known signer of its
      certificates other than itself. */
  ghost predicate AcyclicBy(keys: Keys, rank: map<KeyId, nat>) {
    && keys.Keys <= rank.Keys
    && forall id, c | id in keys && !keys[id].trust.IsTerminal() && c in keys[id].certs
                      && c.caKeyId in keys && c.caKeyId != id :: rank[c.caKeyId] < rank[id]
  }

  datatype Verdict = Verdict(trusted: bool, newest: int, effective: CertAuthScope)

  /** What a key is worth, judged from the certificates and the terminal keys alone. */
  ghost function Judge(C: Crypto, keys: Keys, rank: map<KeyId, nat>, id: KeyId): Verdict
    requires AcyclicBy(keys, rank) && id in keys
    decreases rank[id], 1, 0
  {
    if keys[id].trust.Revoked? then Verdict(false, -1, EMPTY_SCOPE)
    else if keys[id].trust.Hardcoded? then Verdict(true, -1, keys[id].effective)
    else Best(C, keys, rank, id, |keys[id].certs|)
  }

  /** The newest valid certificate among the first n; of equally new ones, the first. */
  ghost function Best(C: Crypto, keys: Keys, rank: map<KeyId, nat>, id: KeyId, n: nat): (v: Verdict)
    requires AcyclicBy(keys, rank) && id in keys && !keys[id].trust.IsTerminal() && n <= |keys[id].certs|
    ensures -1 <= v.newest < n && (v.trusted <==> v.newest >= 0)
    decreases rank[id], 0, n
  {
    if n == 0 then Verdict(false, -1, EMPTY_SCOPE)
    else
      var best := Best(C, keys, rank, id, n - 1);
      var c := keys[id].certs[n - 1];
      if CertValid(C, keys, rank, id, n - 1)
          && (best.newest < 0 || keys[id].certs[best.newest].timeCreated < c.timeCreated)
      then Verdict(true, n - 1, ScopeIntersection(Judge(C, keys, rank, c.caKeyId).effective, c.scope))
      else best
  }

  ghost predicate CertValid(C: Crypto, keys: Keys, rank: map<KeyId, nat>, id: KeyId, i: nat)
    requires AcyclicBy(keys, rank) && id in keys && !keys[id].trust.IsTerminal() && i < |keys[id].certs|
    decreases rank[id], 0, i
  {
    var c := keys[id].certs[i];
    && c.caKeyId in keys && c.caKeyId != id
    && var signer := Judge(C, keys, rank, c.caKeyId);
       && signer.trusted
       && Verifies(C, keys[c.caKeyId], c.signedData, c.signature)
       && !ScopeIntersection(signer.effective, c.scope).apps.IsEmpty()
       && !ScopeIntersection(signer.effective, c.scope).pops.IsEmpty()
  }

  /** What the verdict promises: a key is trusted iff one of its certificates is valid, and
      the chosen certificate is valid, no valid one is newer, and no earlier one is as new. */
  lemma {:induction false} BestIsNewest(C: Crypto, keys: Keys, rank: map<KeyId, nat>, id: KeyId, n: nat)
    requires AcyclicBy(keys, rank) && id in keys && !keys[id].trust.IsTerminal() && n <= |keys[id].certs|
    ensures var v, certs := Best(C, keys, rank, id, n), keys[id].certs;
            && (!v.trusted ==> forall i | 0 <= i < n :: !CertValid(C, keys, rank, id, i))
            && (v.trusted ==>
                  && CertValid(C, keys, rank, id, v.newest)
                  && v.effective == ScopeIntersection(
                       Judge(C, keys, rank, certs[v.newest].caKeyId).effective, certs[v.newest].scope)
                  && forall i | 0 <= i < n && CertValid(C, keys, rank, id, i) ::
                       certs[i].timeCreated <= certs[v.newest].timeCreated
                       && (i < v.newest ==> certs[i].timeCreated < certs[v.newest].timeCreated))
    decreases n
  {
    if n > 0 {
      hide CertValid, Judge, ScopeIntersection;
      BestIsNewest(C, keys, rank, id, n - 1);
    }
  }

  /** Two stores that differ only in the outcome of an evaluation. */
  ghost predicate SameGraph(a: Keys, b: Keys) {
    && a.Keys == b.Keys
    && forall id | id in a ::
         && a[id].certs == b[id].certs && a[id].keyData == b[id].keyData
         && (a[id].trust.IsTerminal() || b[id].trust.IsTerminal() ==> a[id] == b[id])
  }

  /** The verdict depends on the graph alone: not on an earlier evaluation, and not on the
      ranking that witnesses that the graph is acyclic. */
  lemma {:induction false} JudgeIsDetermined(
    C: Crypto, a: Keys, b: Keys, r: map<KeyId, nat>, s: map<KeyId, nat>, id: KeyId)
    requires SameGraph(a, b) && AcyclicBy(a, r) && AcyclicBy(b, s) && id in a
    ensures Judge(C, a, r, id) == Judge(C, b, s, id)
    decreases r[id], 1, 0
  {
    if !a[id].trust.IsTerminal() {
      BestIsDetermined(C, a, b, r, s, id, |a[id].certs|);
    }
  }

  lemma {:induction false} BestIsDetermined(
    C: Crypto, a: Keys, b: Keys, r: map<KeyId, nat>, s: map<KeyId, nat>, id: KeyId, n: nat)
    requires SameGraph(a, b) && AcyclicBy(a, r) && AcyclicBy(b, s) && id in a
    requires !a[id].trust.IsTerminal() && n <= |a[id].certs|
    ensures Best(C, a, r, id, n) == Best(C, b, s, id, n)
    decreases r[id], 0, n
  {
    if n > 0 {
      BestIsDetermined(C, a, b, r, s, id, n - 1);
      var c := a[id].certs[n - 1];
      if c.caKeyId in a && c.caKeyId != id {
        JudgeIsDetermined(C, a, b, r, s, c.caKeyId);
      }
    }
  }

  // ---------- One evaluation step after another ----------

  /** The key's evaluated state is its verdict. */
  ghost predicate Agrees(C: Crypto, keys: Keys, rank: map<KeyId, nat>, id: KeyId)
    requires AcyclicBy(keys, rank) && id in keys
  {
    var v := Judge(C, keys, rank, id);
    && (keys[id].trust.IsTrusted() <==> v.trusted)
    && (keys[id].trust.Trusted? ==> keys[id].newest == v.newest)
    && (keys[id].trust.IsTrusted() ==> keys[id].effective == v.effective)
  }

  /** Every key that has been decided agrees with its verdict. */
  ghost predicate Exact(C: Crypto, keys: Keys, rank: map<KeyId, nat>) {
    && AcyclicBy(keys, rank)
    && forall id | id in keys && !keys[id].trust.Unknown? && !keys[id].trust.UnknownWorking? ::
         Agrees(C, keys, rank, id)
  }

  /** Keys in progress and decided keys stay as they are; unknown ones may become decided. */
  ghost predicate Evolves(a: Keys, b: Keys) {
    && a.Keys == b.Keys
    && forall id | id in a ::
         && b[id].certs == a[id].certs && b[id].keyData == a[id].keyData
         && (b[id] == a[id] || (a[id].trust.Unknown? && (b[id].trust.Trusted? || b[id].trust.NotTrusted?)))
  }

  ghost predicate InProgressAbove(keys: Keys, rank: map<KeyId, nat>, id: KeyId) {
    id in rank && forall j | j in keys && keys[j].trust.UnknownWorking? :: j in rank && rank[id] < rank[j]
  }

  /** An evaluation in progress has found the best of the first n certificates. */
  ghost predicate Tracks(C: Crypto, keys: Keys, rank: map<KeyId, nat>, id: KeyId, n: nat)
    requires id in keys && !keys[id].trust.IsTerminal() && n <= |keys[id].certs|
  {
    && Exact(C, keys, rank)
    && var best := Best(C, keys, rank, id, n);
       keys[id].newest == best.newest && (best.newest >= 0 ==> keys[id].effective == best.effective)
  }

  lemma EvolvesIsReflexive(a: Keys)
    ensures Evolves(a, a)
  {
  }

  lemma ExactAfterUpdate(C: Crypto, keys: Keys, rank: map<KeyId, nat>, id: KeyId, key: PublicKey)
    requires Exact(C, keys, rank) && id in keys && !keys[id].trust.IsTerminal()
    requires key.certs == keys[id].certs && key.keyData == keys[id].keyData && !key.trust.IsTerminal()
    requires key.trust.Unknown? || key.trust.UnknownWorking?
             || (var v := Judge(C, keys, rank, id);
                 && (key.trust.Trusted? <==> v.trusted)
                 && (v.trusted ==> key.newest == v.newest && key.effective == v.effective))
    ensures Exact(C, keys[id := key], rank)
  {
    var after := keys[id := key];
    forall k | k in keys && !after[k].trust.Unknown? && !after[k].trust.UnknownWorking?
      ensures AcyclicBy(after, rank) && Agrees(C, after, rank, k)
    {
      JudgeIsDetermined(C, keys, after, rank, rank, k);
    }
  }

  lemma BestAfter(C: Crypto, a: Keys, b: Keys, rank: map<KeyId, nat>, id: KeyId, n: nat)
    requires AcyclicBy(a, rank) && AcyclicBy(b, rank) && SameGraph(a, b) && id in a
    requires !a[id].trust.IsTerminal() && n <= |a[id].certs|
    ensures Best(C, a, rank, id, n) == Best(C, b, rank, id, n)
  {
    BestIsDetermined(C, a, b, rank, rank, id, n);
  }

  lemma TracksAfterCall(C: Crypto, a: Keys, b: Keys, rank: map<KeyId, nat>, id: KeyId, n: nat)
    requires id in a && !a[id].trust.IsTerminal() && n <= |a[id].certs|
    requires Tracks(C, a, rank, id, n) && Evolves(a, b) && b[id] == a[id] && Exact(C, b, rank)
    ensures Tracks(C, b, rank, id, n)
  {
    BestAfter(C, a, b, rank, id, n);
  }

  /** Whether the next certificate counts can be read off the signer's decided state. */
  lemma ValidityFromState(C: Crypto, keys: Keys, rank: map<KeyId, nat>, id: KeyId, n: nat)
    requires Exact(C, keys, rank) && id in keys && !keys[id].trust.IsTerminal() && n < |keys[id].certs|
    requires var ca := keys[id].certs[n].caKeyId;
             ca in keys && ca != id ==> !keys[ca].trust.Unknown? && !keys[ca].trust.UnknownWorking?
    ensures var c := keys[id].certs[n];
            && (CertValid(C, keys, rank, id, n)
                <==> && c.caKeyId in keys && c.caKeyId != id && keys[c.caKeyId].trust.IsTrusted()
                     && Verifies(C, keys[c.caKeyId], c.signedData, c.signature)
                     && var scope := ScopeIntersection(keys[c.caKeyId].effective, c.scope);
                        !scope.apps.IsEmpty() && !scope.pops.IsEmpty())
            && (CertValid(C, keys, rank, id, n)
                ==> Judge(C, keys, rank, c.caKeyId).effective == keys[c.caKeyId].effective)
  {
    var ca := keys[id].certs[n].caKeyId;
    if ca in keys && ca != id {
      assert Agrees(C, keys, rank, ca);
    }
  }

  /** What makes a key trusted in a store that is decided: it is the root, or some other trusted
      key that has not been revoked has signed a certificate for it, and grants an app and a POP
      that the certificate grants. */
  lemma TrustedIff(C: Crypto, keys: Keys, rank: map<KeyId, nat>, id: KeyId)
    requires WellFormed(C, keys) && Exact(C, keys, rank) && Decided(keys) && id in keys
    ensures keys[id].trust.IsTrusted() <==>
              || keys[id].trust.Hardcoded?
              || (!keys[id].trust.Revoked?
                  && exists i :: 0 <= i < |keys[id].certs| && Vouches(C, keys, id, keys[id].certs[i]))
  {
    if !keys[id].trust.IsTerminal() {
      assert Agrees(C, keys, rank, id);
      BestIsNewest(C, keys, rank, id, |keys[id].certs|);
      forall i | 0 <= i < |keys[id].certs|
        ensures CertValid(C, keys, rank, id, i) <==> Vouches(C, keys, id, keys[id].certs[i])
      {
        ValidIsVouched(C, keys, rank, id, i);
      }
      hide CertValid, Vouches, Judge, Exact, WellFormed;
    }
  }

  /** The certificate's signer is another trusted key that has signed it, and the two grant some
      app and some POP in common. */
  ghost predicate Vouches(C: Crypto, keys: Keys, id: KeyId, c: Cert) {
    && c.caKeyId in keys && c.caKeyId != id && keys[c.caKeyId].trust.IsTrusted()
    && keys[c.caKeyId].keyData != [] && C.verify(keys[c.caKeyId].keyData, c.signedData, c.signature)
    && (exists x :: keys[c.caKeyId].effective.apps.HasItem(x) && c.scope.apps.HasItem(x))
    && (exists x :: keys[c.caKeyId].effective.pops.HasItem(x) && c.scope.pops.HasItem(x))
  }

  lemma ValidIsVouched(C: Crypto, keys: Keys, rank: map<KeyId, nat>, id: KeyId, i: nat)
    requires WellFormed(C, keys) && Exact(C, keys, rank) && Decided(keys) && id in keys
    requires !keys[id].trust.IsTerminal() && i < |keys[id].certs|
    ensures CertValid(C, keys, rank, id, i) <==> Vouches(C, keys, id, keys[id].certs[i])
  {
    var c := keys[id].certs[i];
    ValidityFromState(C, keys, rank, id, i);
    if c.caKeyId in keys && keys[c.caKeyId].trust.IsTrusted() {
      SignerGrants(C, keys, id, i, c.caKeyId);
      var signer := keys[c.caKeyId].effective;
      CommonIffNotEmpty(signer.apps, c.scope.apps);
      CommonIffNotEmpty(signer.pops, c.scope.pops);
    }
    hide CertValid, Intersection, Exact, WellFormed;
  }

  /** Once all certificates are examined, the best one is the verdict. */
  lemma DecidedByBest(C: Crypto, keys: Keys, rank: map<KeyId, nat>, id: KeyId)
    requires id in keys && !keys[id].trust.IsTerminal() && Tracks(C, keys, rank, id, |keys[id].certs|)
    ensures Exact(C, keys, rank)
    ensures var v := Judge(C, keys, rank, id);
            && (v.trusted <==> keys[id].newest >= 0)
            && (v.trusted ==> v.newest == keys[id].newest && v.effective == keys[id].effective)
  {
  }

  /** The certificate counts, as far as the present state of its signer says. */
  predicate Accepts(C: Crypto, keys: Keys, id: KeyId, c: Cert) {
    && c.caKeyId in keys && c.caKeyId != id && keys[c.caKeyId].trust.IsTrusted()
    && Verifies(C, keys[c.caKeyId], c.signedData, c.signature)
    && var scope := ScopeIntersection(keys[c.caKeyId].effective, c.scope);
       !scope.apps.IsEmpty() && !scope.pops.IsEmpty()
  }

  /** c is the first to count, or newer than the best so far. */
  predicate Improves(key: PublicKey, c: Cert)
    requires key.newest < |key.certs|
  {
    key.newest < 0 || key.certs[key.newest].timeCreated < c.timeCreated
  }

  /** The first n certificates of the key in progress have been examined. */
  ghost predicate Examining(C: Crypto, keys: Keys, id: KeyId, n: nat, working: Keys) {
    && id in keys && id in working && keys[id].trust.UnknownWorking? && n <= |keys[id].certs|
    && working[id].trust.UnknownWorking? && Evolves(working, keys[id := working[id]])
    && keys[id].certs == working[id].certs && keys[id].keyData == working[id].keyData
    && -1 <= keys[id].newest < n
    && (keys[id].newest >= 0 ==> Link(C, keys, id, NewestCert(keys[id]), keys[id].effective))
  }

  function UnknownIn(keys: Keys): set<KeyId> {
    set id | id in keys && keys[id].trust.Unknown?
  }

  lemma ExaminingAfterCall(C: Crypto, a: Keys, b: Keys, id: KeyId, n: nat, working: Keys)
    requires Examining(C, a, id, n, working) && Evolves(a, b)
    ensures Examining(C, b, id, n, working) && a.Keys == b.Keys && b[id] == a[id]
  {
  }

  lemma ExaminingSkips(C: Crypto, keys: Keys, id: KeyId, n: nat, working: Keys)
    requires Examining(C, keys, id, n, working) && n < |keys[id].certs|
    ensures Examining(C, keys, id, n + 1, working)
    ensures -1 <= keys[id].newest < n
  {
  }

  lemma ExaminingTakes(C: Crypto, keys: Keys, id: KeyId, n: nat, working: Keys, scope: CertAuthScope)
    requires Examining(C, keys, id, n, working) && n < |keys[id].certs|
    requires Link(C, keys, id, keys[id].certs[n], scope)
    ensures Examining(C, keys[id := keys[id].(newest := n, effective := scope)], id, n + 1, working)
  {
  }

  lemma InProgressSame(C: Crypto, keys: Keys, id: KeyId, n: nat, working: Keys)
    requires Examining(C, keys, id, n, working)
    ensures forall j | j in keys :: keys[j].trust.UnknownWorking? <==> working[j].trust.UnknownWorking?
    ensures UnknownIn(keys) <= UnknownIn(working)
  {
    forall j | j in keys
      ensures keys[j].trust.UnknownWorking? <==> working[j].trust.UnknownWorking?
      ensures keys[j].trust.Unknown? ==> working[j].trust.Unknown?
    {
      assert j in keys[id := working[id]];
    }
  }

  lemma TracksNext(C: Crypto, keys: Keys, rank: map<KeyId, nat>, id: KeyId, n: nat)
    requires id in keys && keys[id].trust.UnknownWorking? && n < |keys[id].certs|
    requires Tracks(C, keys, rank, id, n)
    requires var ca := keys[id].certs[n].caKeyId;
             ca in keys && ca != id ==> !keys[ca].trust.Unknown? && !keys[ca].trust.UnknownWorking?
    ensures var c := keys[id].certs[n];
            if Accepts(C, keys, id, c) && Improves(keys[id], c) then
              var scope := ScopeIntersection(keys[c.caKeyId].effective, c.scope);
              Tracks(C, keys[id := keys[id].(newest := n, effective := scope)], rank, id, n + 1)
            else Tracks(C, keys, rank, id, n + 1)
  {
    ValidityFromState(C, keys, rank, id, n);
    var c := keys[id].certs[n];
    if Accepts(C, keys, id, c) && Improves(keys[id], c) {
      var key := keys[id].(newest := n, effective := ScopeIntersection(keys[c.caKeyId].effective, c.scope));
      ExactAfterUpdate(C, keys, rank, id, key);
      BestAfter(C, keys, keys[id := key], rank, id, n + 1);
    }
  }

  /** Every key in progress ranks at least as high as id. */
  ghost predicate InProgressFrom(keys: Keys, rank: map<KeyId, nat>, id: KeyId) {
    id in rank && forall j | j in keys && keys[j].trust.UnknownWorking? :: j in rank && rank[id] <= rank[j]
  }

  lemma NoneExamined(C: Crypto, start: Keys, keys: Keys, rank: map<KeyId, nat>, id: KeyId)
    requires Exact(C, keys, rank) && id in keys && keys[id].trust.UnknownWorking? && keys[id].newest == -1
    requires id in start && keys == start[id := keys[id]] && InProgressAbove(start, rank, id)
    ensures Tracks(C, keys, rank, id, 0) && InProgressFrom(keys, rank, id)
  {
  }

  lemma EvolvesFromWorking(start: Keys, working: Keys, keys: Keys, id: KeyId, key: PublicKey)
    requires id in start && start[id].trust.Unknown? && id in working && id in keys
    requires working[id].certs == start[id].certs && working[id].keyData == start[id].keyData
    requires working == start[id := working[id]] && Evolves(working, keys[id := working[id]])
    requires key.certs == start[id].certs && key.keyData == start[id].keyData
             && (key.trust.Trusted? || key.trust.NotTrusted?)
    ensures Evolves(start, keys[id := key])
  {
    var replaced := keys[id := working[id]];
    assert replaced.Keys == working.Keys == start.Keys && keys.Keys == replaced.Keys;
    forall k | k in start && k != id
      ensures keys[k] == replaced[k] && working[k] == start[k]
    {
    }
  }

  /** On an acyclic graph a signer is not in progress when its turn comes, and ranks below
      every key that is. */
  lemma SignerIsBelow(C: Crypto, keys: Keys, rank: map<KeyId, nat>, id: KeyId, n: nat, working: Keys)
    requires Examining(C, keys, id, n, working) && n < |keys[id].certs|
    requires Tracks(C, keys, rank, id, n) && InProgressFrom(working, rank, id)
    ensures Exact(C, keys, rank)
    ensures var ca := keys[id].certs[n].caKeyId;
            ca in keys && ca != id ==> !keys[ca].trust.UnknownWorking? && InProgressAbove(keys, rank, ca)
  {
    InProgressSame(C, keys, id, n, working);
    assert keys[id].certs[n] in keys[id].certs;
  }

  lemma StartExamining(C: Crypto, start: Keys, id: KeyId, working: Keys)
    requires id in start && start[id].trust.Unknown?
    requires working == start[id := start[id].(trust := UnknownWorking, newest := -1)]
    ensures Evolves(start, start) && Examining(C, working, id, 0, working)
    ensures UnknownIn(working) < UnknownIn(start)
  {
    assert working[id := working[id]] == working;
    assert id in UnknownIn(start) && id !in UnknownIn(working);
  }

  /** With its certificates examined, a key turns trusted if one of them was kept. */
  lemma Conclude(C: Crypto, start: Keys, working: Keys, keys: Keys, age: map<KeyId, nat>, now: nat, id: KeyId,
                 key: PublicKey)
    requires WellFormed(C, keys) && Sound(C, keys, age) && forall k | k in age :: age[k] < now
    requires id in start && start[id].trust.Unknown?
    requires working == start[id := start[id].(trust := UnknownWorking, newest := -1)]
    requires id in keys && Examining(C, keys, id, |keys[id].certs|, working)
    requires key == if keys[id].newest < 0 then keys[id].(trust := NotTrusted, effective := EMPTY_SCOPE)
                    else keys[id].(trust := Trusted)
    ensures WellFormed(C, keys[id := key]) && Evolves(start, keys[id := key])
    ensures Sound(C, keys[id := key], if key.trust.Trusted? then age[id := now] else age)
  {
    hide WellFormed, Sound, Link;
    EvolvesFromWorking(start, working, keys, id, key);
    if key.trust.Trusted? {
      TrustKeepsSound(C, keys, age, id, key, now);
    } else {
      UpdateKeepsSound(C, keys, age, id, key);
    }
  }

  /** A key only enters the store revoked, as the root, or with a certificate. */
  lemma HasGoodCerts(C: Crypto, keys: Keys, id: KeyId)
    requires WellFormed(C, keys) && id in keys && !keys[id].trust.IsTerminal()
    ensures keys[id].certs != [] && forall i | 0 <= i < |keys[id].certs| :: GoodCert(keys[id].certs[i])
  {
    assert forall i | 0 <= i < |keys[id].certs| :: keys[id].certs[i] in keys[id].certs;
  }

  lemma SignerGrants(C: Crypto, keys: Keys, id: KeyId, n: nat, ca: KeyId)
    requires WellFormed(C, keys) && id in keys && n < |keys[id].certs| && ca in keys && keys[ca].trust.IsTrusted()
    ensures keys[ca].effective.Grants() && keys[id].certs[n].scope.Grants()
  {
    assert keys[id].certs[n] in keys[id].certs;
  }

  lemma UpdateKeepsSound(C: Crypto, keys: Keys, age: map<KeyId, nat>, id: KeyId, key: PublicKey)
    requires WellFormed(C, keys) && Sound(C, keys, age) && id in keys
    requires !keys[id].trust.IsTrusted() && !keys[id].trust.Revoked?
    requires key.certs == keys[id].certs && key.keyData == keys[id].keyData && !key.trust.IsTrusted()
    ensures WellFormed(C, keys[id := key]) && Sound(C, keys[id := key], age)
  {
    var after := keys[id := key];
    forall k | k in after && after[k].trust.Trusted?
      ensures Linked(C, after, k)
    {
      assert Linked(C, keys, k);
    }
    hide Linked;
  }

  lemma TrustKeepsSound(C: Crypto, keys: Keys, age: map<KeyId, nat>, id: KeyId, key: PublicKey, now: nat)
    requires WellFormed(C, keys) && Sound(C, keys, age) && id in keys
    requires !keys[id].trust.IsTrusted() && !keys[id].trust.Revoked?
    requires forall k | k in age :: age[k] < now
    requires key.certs == keys[id].certs && key.keyData == keys[id].keyData && key.trust.Trusted?
             && 0 <= key.newest < |key.certs|
    requires Link(C, keys, id, NewestCert(key), key.effective)
    ensures WellFormed(C, keys[id := key]) && Sound(C, keys[id := key], age[id := now])
  {
    var after := keys[id := key];
    forall k | k in after && after[k].trust.Trusted?
      ensures Linked(C, after, k)
    {
      if k != id {
        assert Linked(C, keys, k);
      }
    }
  }

  // ---------- A whole evaluation ----------

  ghost predicate Decided(keys: Keys) {
    forall id | id in keys :: !keys[id].trust.Unknown? && !keys[id].trust.UnknownWorking?
  }

  /** Before an evaluation only the terminal keys are decided, and rightly so. */
  lemma ExactAtStart(C: Crypto, keys: Keys, rank: map<KeyId, nat>)
    requires AcyclicBy(keys, rank)
    requires forall id | id in keys :: keys[id].trust.Unknown? || keys[id].trust.IsTerminal()
    ensures Exact(C, keys, rank)
  {
  }

  /** Exactness under one ranking is exactness under all. */
  lemma ExactUnderEveryRank(C: Crypto, keys: Keys, r: map<KeyId, nat>, s: map<KeyId, nat>)
    requires Exact(C, keys, r) && AcyclicBy(keys, s)
    ensures Exact(C, keys, s)
  {
    forall id | id in keys && !keys[id].trust.Unknown? && !keys[id].trust.UnknownWorking?
      ensures Agrees(C, keys, s, id)
    {
      JudgeIsDetermined(C, keys, keys, r, s, id);
    }
  }

  /** Two completed evaluations of the same acyclic graph agree on every key: neither the
      order of the keys nor what was decided before plays a part. */
  lemma EvaluationIsDetermined(C: Crypto, a: Keys, b: Keys, r: map<KeyId, nat>, s: map<KeyId, nat>, id: KeyId)
    requires SameGraph(a, b) && Decided(a) && Decided(b)
    requires Exact(C, a, r) && Exact(C, b, s) && id in a
    ensures a[id].trust == b[id].trust
    ensures a[id].trust.IsTrusted() ==> a[id].effective == b[id].effective
    ensures a[id].trust.Trusted? ==> a[id].newest == b[id].newest
  {
    assert Agrees(C, a, r, id) && Agrees(C, b, s, id);
    JudgeIsDetermined(C, a, b, r, s, id);
  }

  lemma EvolvesSameGraph(a: Keys, b: Keys, c: Keys)
    requires SameGraph(a, b) && Evolves(b, c)
    ensures SameGraph(a, c) && b.Keys == c.Keys
    ensures forall k | k in b && !b[k].trust.Unknown? :: c[k] == b[k]
    ensures forall k | k in b && !b[k].trust.UnknownWorking? :: !c[k].trust.UnknownWorking?
  {
  }

  lemma SameGraphIsReflexive(a: Keys)
    ensures SameGraph(a, a)
  {
  }

  lemma ForgetKey(C: Crypto, start: Keys, keys: Keys, id: KeyId)
    requires WellFormed(C, keys) && SameGraph(start, keys) && id in keys && !keys[id].trust.IsTerminal()
    ensures var after := keys[id := keys[id].(trust := Unknown)];
            WellFormed(C, after) && SameGraph(start, after)
  {
  }

  lemma PickRank(C: Crypto, keys: Keys) returns (rank: map<KeyId, nat>, acyclic: bool)
    requires forall id | id in keys :: keys[id].trust.Unknown? || keys[id].trust.IsTerminal()
    ensures acyclic ==> Exact(C, keys, rank)
    ensures !acyclic ==> forall r: map<KeyId, nat> :: !AcyclicBy(keys, r)
  {
    hide AcyclicBy;
    rank, acyclic := map[], exists r: map<KeyId, nat> :: AcyclicBy(keys, r);
    if acyclic {
      rank :| AcyclicBy(keys, rank);
      ExactAtStart(C, keys, rank);
    }
  }

  /** A completed evaluation is exact under every ranking there is. */
  lemma ExactUnderAll(C: Crypto, start: Keys, base: Keys, keys: Keys, rank: map<KeyId, nat>, acyclic: bool)
    requires SameGraph(start, base) && SameGraph(base, keys) && Decided(keys)
    requires if acyclic then Exact(C, keys, rank) else forall r: map<KeyId, nat> :: !AcyclicBy(base, r)
    ensures SameGraph(start, keys)
    ensures forall id | id in keys :: !keys[id].trust.Unknown? && !keys[id].trust.UnknownWorking?
    ensures forall r: map<KeyId, nat> | AcyclicBy(keys, r) :: Exact(C, keys, r)
  {
    forall r: map<KeyId, nat> | AcyclicBy(keys, r)
      ensures Exact(C, keys, r)
    {
      SameGraphSameRanks(base, keys, r);
      if acyclic {
        hide AcyclicBy, Exact;
        ExactUnderEveryRank(C, keys, rank, r);
      }
    }
  }

  lemma SameGraphSameRanks(a: Keys, b: Keys, rank: map<KeyId, nat>)
    requires SameGraph(a, b) && AcyclicBy(b, rank)
    ensures AcyclicBy(a, rank)
  {
  }

  lemma NoneAbove(C: Crypto, keys: Keys, rank: map<KeyId, nat>, id: KeyId)
    requires Exact(C, keys, rank) && id in keys && forall k | k in keys :: !keys[k].trust.UnknownWorking?
    ensures InProgressAbove(keys, rank, id)
  {
  }

  lemma NoneTrusted(C: Crypto, keys: Keys)
    requires forall id | id in keys :: !keys[id].trust.Trusted?
    ensures Sound(C, keys, map[])
  {
  }
}

/** The certificate store itself. */
module CertStore {
  import opened CertAuth
  import opened CertTrust
  import opened Wrappers

  class CertStore {
    const C: Crypto
    var keys: Keys
    var trustValid: bool

    /** The order in which keys came to be trusted, and a time later than all of it. */
    ghost var age: map<KeyId, nat>
    ghost var now: nat

    constructor (crypto: Crypto)
      requires crypto.rootKey != []
      ensures Valid() && C == crypto && keys == map[] && !trustValid
    {
      C := crypto;
      keys, trustValid := map[], false;
      age, now := map[], 0;
    }

    ghost predicate Consistent()
      reads this
    {
      WellFormed(C, keys) && Sound(C, keys, age) && forall k | k in age :: age[k] < now
    }

    /** Every key is decided, and on an acyclic graph decided as the verdict says. */
    ghost predicate Evaluated()
      reads this
    {
      && (forall id | id in keys :: !keys[id].trust.Unknown?)
      && forall rank: map<KeyId, nat> | AcyclicBy(keys, rank) :: Exact(C, keys, rank)
    }

    ghost predicate Valid()
      reads this
    {
      && C.rootKey != [] && WellFormed(C, keys)
      && (forall id | id in keys :: !keys[id].trust.UnknownWorking?)
      && (trustValid ==> Consistent() && Evaluated() && keys != map[])
    }

    lemma ValidIsWellFormed()
      requires Valid()
      ensures WellFormed(C, keys)
    {
    }

    /** Decide a key whose trust is unknown, first deciding the signers of its certificates.
        A key in progress is never entered again, so the keys still unknown dwindle. */
    method RecursiveEvaluateKeyTrust(id: KeyId, ghost rank: map<KeyId, nat>)
      requires id in keys && !keys[id].trust.UnknownWorking? && Consistent()
      modifies this`keys, this`age, this`now
      ensures Consistent() && Evolves(old(keys), keys)
      ensures !keys[id].trust.Unknown? && !keys[id].trust.UnknownWorking?
      ensures Exact(C, old(keys), rank) && InProgressAbove(old(keys), rank, id) ==> Exact(C, keys, rank)
      decreases UnknownIn(keys), 0
    {
      hide Sound, WellFormed, GoodCert, Exact, Judge, Tracks, Evolves, Examining, UnknownIn, InProgressAbove;
      hide InProgressFrom;
      ghost var start := keys;
      if !keys[id].trust.Unknown? {
        EvolvesIsReflexive(keys);
        return;
      }
      ghost var exact := Exact(C, keys, rank) && InProgressAbove(keys, rank, id);
      ghost var marked := keys[id].(trust := UnknownWorking, newest := -1);
      UpdateKeepsSound(C, keys, age, id, marked);
      StartExamining(C, keys, id, keys[id := marked]);
      if exact {
        ExactAfterUpdate(C, keys, rank, id, marked);
      }
      keys := keys[id := keys[id].(trust := UnknownWorking)];
      keys := keys[id := keys[id].(newest := -1)];
      ghost var working := keys;
      assert working == start[id := marked];
      if exact {
        NoneExamined(C, start, working, rank, id);
      }

      HasGoodCerts(C, keys, id);
      assert keys[id].certs != [];
      for i := 0 to |keys[id].certs|
        invariant Consistent() && Examining(C, keys, id, i, working)
        invariant id in keys && keys[id].trust.UnknownWorking? && keys[id].certs == working[id].certs
        invariant exact ==> Tracks(C, keys, rank, id, i)
      {
        ExamineCert(id, i, working, rank, exact);
      }

      ghost var examined := keys;
      if keys[id].newest < 0 {
        keys := keys[id := keys[id].(trust := NotTrusted)];
        keys := keys[id := keys[id].(effective := EMPTY_SCOPE)];
      } else {
        keys := keys[id := keys[id].(trust := Trusted)];
      }
      ghost var key := keys[id];
      assert keys == examined[id := key];
      Conclude(C, start, working, examined, age, now, id, key);
      if exact {
        DecidedByBest(C, examined, rank, id);
        ExactAfterUpdate(C, examined, rank, id, key);
      }
      if key.trust.Trusted? {
        age, now := age[id := now], now + 1;
      }
    }

    /** Examine certificate i of the key in progress and keep it if it is the best so far. */
    method ExamineCert(id: KeyId, i: nat, ghost working: Keys, ghost rank: map<KeyId, nat>, ghost exact: bool)
      requires Consistent() && Examining(C, keys, id, i, working)
      requires id in keys && keys[id].trust.UnknownWorking? && i < |keys[id].certs|
      requires exact ==> Tracks(C, keys, rank, id, i) && InProgressFrom(working, rank, id)
      modifies this`keys, this`age, this`now
      ensures Consistent() && Examining(C, keys, id, i + 1, working)
      ensures id in keys && keys[id].trust.UnknownWorking? && keys[id].certs == old(keys[id].certs)
      ensures exact ==> Tracks(C, keys, rank, id, i + 1)
      decreases UnknownIn(working), 1
    {
      hide Sound, WellFormed, Exact, Best, Judge, Verifies, Examining, Tracks, Evolves;
      ExaminingSkips(C, keys, id, i, working);
      InProgressSame(C, keys, id, i, working);
      var cert := keys[id].certs[i];
      HasGoodCerts(C, keys, id);
      assert cert.signedData != [] && |cert.signature| == 64 && cert.scope.Grants();
      if cert.caKeyId !in keys || cert.caKeyId == id {
        if exact { TracksNext(C, keys, rank, id, i); }
        return;
      }
      if exact { SignerIsBelow(C, keys, rank, id, i, working); }
      if keys[cert.caKeyId].trust.UnknownWorking? {
        return;
      }

      ghost var before := keys;
      RecursiveEvaluateKeyTrust(cert.caKeyId, rank);
      ExaminingAfterCall(C, before, keys, id, i, working);
      ExaminingSkips(C, keys, id, i, working);
      if exact {
        TracksAfterCall(C, before, keys, rank, id, i);
        TracksNext(C, keys, rank, id, i);
      }
      if !keys[cert.caKeyId].trust.IsTrusted() {
        return;
      }
      if !Verifies(C, keys[cert.caKeyId], cert.signedData, cert.signature) {
        return;
      }
      SignerGrants(C, keys, id, i, cert.caKeyId);
      var scope := SetScopeIntersection(keys[cert.caKeyId].effective, cert.scope);
      if scope.apps.IsEmpty() || scope.pops.IsEmpty() {
        return;
      }
      assert scope.Grants() && scope.timeExpiry > 0;
      if keys[id].newest < 0 || keys[id].certs[keys[id].newest].timeCreated < cert.timeCreated {
        ExaminingTakes(C, keys, id, i, working, scope);
        UpdateKeepsSound(C, keys, age, id, keys[id].(newest := i, effective := scope));
        keys := keys[id := keys[id].(newest := i, effective := scope)];
      }
    }

    /** Decide every key, unless that has been done since the last change.  On an acyclic
        signer graph each ends up as its verdict says, in whatever order they are visited. */
    method EnsureTrustValid()
      requires Valid()
      modifies this
      ensures Valid() && trustValid && keys != map[]
      ensures SameGraph(Initialised(C, old(keys)), keys) && Decided(keys)
      ensures (exists id :: id in keys && keys[id].trust.IsTrusted()) <==> HasRoot(Initialised(C, old(keys)))
    {
      InitialisedRoot(C, keys);
      OneTimeInit();
      ghost var start := keys;
      DecideAll();
      RootStays(start, keys);
      TrustNeedsRoot(C, keys, age);
    }

    method DecideAll()
      requires Valid() && keys != map[]
      modifies this
      ensures Valid() && trustValid && keys != map[] && SameGraph(old(keys), keys) && Decided(keys)
      ensures Sound(C, keys, age)
    {
      if trustValid {
        SameGraphIsReflexive(keys);
        return;
      }
      Reevaluate();
    }

    method Reevaluate()
      requires Valid() && keys != map[]
      modifies this
      ensures Valid() && trustValid && keys != map[] && SameGraph(old(keys), keys)
    {
      hide AcyclicBy, Exact, SameGraph, Decided, Sound, WellFormed;
      ghost var start := keys;
      ForgetTrust();
      ghost var base := keys;
      ghost var rank, acyclic := PickRank(C, base);
      EvaluateAll(rank);
      ExactUnderAll(C, start, base, keys, rank, acyclic);
      trustValid := true;
    }

    /** Visit every key. */
    method EvaluateAll(ghost rank: map<KeyId, nat>)
      requires Consistent() && keys != map[]
      requires forall id | id in keys :: keys[id].trust.Unknown? || keys[id].trust.IsTerminal()
      modifies this`keys, this`age, this`now
      ensures Consistent() && keys != map[] && SameGraph(old(keys), keys) && Decided(keys)
      ensures Exact(C, old(keys), rank) ==> Exact(C, keys, rank)
    {
      hide Sound, WellFormed, Judge, Best, Evolves, AcyclicBy;
      ghost var base := keys;
      var pending := keys.Keys;
      while pending != {}
        invariant Consistent() && SameGraph(base, keys) && keys.Keys == base.Keys && pending <= keys.Keys
        invariant forall id | id in keys :: !keys[id].trust.UnknownWorking?
        invariant forall id | id in keys && id !in pending :: !keys[id].trust.Unknown?
        invariant Exact(C, base, rank) ==> Exact(C, keys, rank)
        decreases pending
      {
        var id :| id in pending;
        pending := pending - {id};
        ghost var before := keys;
        if Exact(C, keys, rank) {
          NoneAbove(C, keys, rank, id);
        }
        hide Exact, SameGraph, InProgressAbove;
        RecursiveEvaluateKeyTrust(id, rank);
        EvolvesSameGraph(base, before, keys);
      }
    }

    /** Everything that is not terminal becomes unknown. */
    method ForgetTrust()
      requires Valid() && keys != map[]
      modifies this`keys, this`age, this`now
      ensures Consistent() && keys.Keys == old(keys).Keys && SameGraph(old(keys), keys)
      ensures forall id | id in keys :: keys[id].trust.Unknown? || keys[id].trust.IsTerminal()
    {
      hide WellFormed, AcyclicBy, Sound, Exact, SameGraph;
      ghost var start := keys;
      SameGraphIsReflexive(keys);
      var pending := keys.Keys;
      while pending != {}
        invariant WellFormed(C, keys) && keys.Keys == start.Keys && SameGraph(start, keys) && pending <= keys.Keys
        invariant forall id | id in keys && id !in pending :: keys[id].trust.Unknown? || keys[id].trust.IsTerminal()
        decreases pending
      {
        var id :| id in pending;
        pending := pending - {id};
        if !keys[id].trust.Revoked? && !keys[id].trust.Hardcoded? {
          ForgetKey(C, start, keys, id);
          keys := keys[id := keys[id].(trust := Unknown)];
        }
      }
      age, now := map[], 0;
      NoneTrusted(C, keys);
    }

    // ---------- Filling the store ----------

    /** An empty store gets the hardcoded root key.  One that a revocation has filled is not
        empty any more and stays without. */
    method OneTimeInit()
      requires Valid()
      modifies this`keys
      ensures Valid() && keys != map[] && keys == Initialised(C, old(keys))
      ensures old(keys) != map[] ==> keys == old(keys)
      ensures old(keys) == map[] ==>
                var id := C.keyIdOf(C.rootKey);
                && keys.Keys == {id} && keys[id].trust.Hardcoded? && keys[id].keyData == C.rootKey
                && keys[id].certs == [] && keys[id].effective.timeExpiry == 0x7FFF_FFFF_FFFF_FFFF
                && forall x :: keys[id].effective.apps.HasItem(x) && keys[id].effective.pops.HasItem(x)
    {
      hide Consistent, Evaluated;
      if |keys| == 0 {
        keys := keys[C.keyIdOf(C.rootKey) := PublicKey(Hardcoded, C.rootKey, [], FULL_SCOPE, -1)];
      }
    }

    method Reset()
      requires C.rootKey != []
      modifies this`keys, this`trustValid
      ensures Valid() && keys == map[] && !trustValid
    {
      keys := map[];
      trustValid := false;
    }

    method AddKeyRevocation(id: KeyId)
      requires Valid()
      modifies this`keys, this`trustValid
      ensures Valid() && keys == WithRevoked(old(keys), id)
      ensures id in keys && keys[id].trust.Revoked? && keys.Keys == old(keys).Keys + {id}
      ensures if id in old(keys) then keys[id].certs == old(keys)[id].certs && keys[id].keyData == old(keys)[id].keyData
              else keys[id].certs == [] && keys[id].keyData == []
      ensures forall k | k in old(keys) && k != id :: keys[k] == old(keys)[k]
      ensures trustValid ==> old(trustValid) && keys == old(keys)
    {
      hide Consistent, Evaluated;
      if id !in keys {
        keys := keys[id := PublicKey(Revoked, [], [], EMPTY_SCOPE, -1)];
        trustValid := false;
        return;
      }
      if keys[id].trust.Revoked? {
        return;
      }
      keys := keys[id := keys[id].(trust := Revoked)];
      trustValid := false;
    }

    /** Take a certificate apart, without judging its signature. */
    method SetupCert(signedData: Bytes, caKeyId: KeyId, signature: Bytes) returns (r: Option<(Cert, Bytes)>)
      ensures r.Some? <==>
                && signedData != [] && |signature| == 64 && C.parse(signedData).Some?
                && var m := C.parse(signedData).value;
                   !m.identityBound && m.ed25519 && |m.keyData| == 32 && m.timeExpiry > 0
      ensures r.Some? ==>
                && C.parse(signedData).Some? && r.value.1 == C.parse(signedData).value.keyData
                && GoodCert(r.value.0) && CertFrom(C.parse(signedData).value, signedData, caKeyId, signature, r.value.0)
    {
      if signedData == [] || |signature| != 64 {
        return None;
      }
      var parsed := C.parse(signedData);
      if parsed.None? {
        return None;
      }
      var m := parsed.value;
      if m.identityBound || !m.ed25519 || |m.keyData| != 32 || m.timeExpiry <= 0 {
        return None;
      }
      var pops, apps := ALL_ITEMS, ALL_ITEMS;
      if |m.popIds| > 0 {
        pops := Setup(m.popIds);
        assert m.popIds[0] in pops.items;
      }
      if |m.appIds| > 0 {
        apps := Setup(m.appIds);
        assert m.appIds[0] in apps.items;
      }
      var scope := CertAuthScope(pops, apps, m.timeExpiry);
      r := Some((Cert(signedData, caKeyId, signature, scope, m.timeCreated), m.keyData));
    }

    /** Add a certificate to the store; trust is judged later.  It is refused if it does not
        parse or if other key data is known for its key. */
    method AddCert(signedData: Bytes, caKeyId: KeyId, signature: Bytes) returns (ok: bool)
      requires Valid()
      modifies this`keys, this`trustValid
      ensures Valid() && keys != map[]
      ensures ok <==> Addable(C, Initialised(C, old(keys)), signedData, signature)
      ensures ok <==>
                && signedData != [] && |signature| == 64 && C.parse(signedData).Some?
                && var m := C.parse(signedData).value;
                   && !m.identityBound && m.ed25519 && |m.keyData| == 32 && m.timeExpiry > 0
                   && var id, start := C.keyIdOf(m.keyData), Initialised(C, old(keys));
                      id in start && start[id].keyData != [] ==> start[id].keyData == m.keyData
      ensures ok ==>
                && C.parse(signedData).Some?
                && var m := C.parse(signedData).value;
                   Listed(Initialised(C, old(keys)), keys, C.keyIdOf(m.keyData), m, signedData, caKeyId, signature)
      ensures !ok ==> keys == Initialised(C, old(keys))
      ensures CertAdded(C, Initialised(C, old(keys)), signedData, caKeyId, signature, keys)
      ensures trustValid ==> old(trustValid) && keys == old(keys)
    {
      hide Consistent, Evaluated, WellFormed, WithCert, GoodCert, CertFrom;
      OneTimeInit();
      var setup := SetupCert(signedData, caKeyId, signature);
      if setup.None? {
        return false;
      }
      ok := AddCertToKey(setup.value.0, setup.value.1);
      if ok {
        ghost var m := C.parse(signedData).value;
        ghost var id := C.keyIdOf(m.keyData);
        WithCertLists(Initialised(C, old(keys)), m, signedData, caKeyId, signature, setup.value.0, id);
      }
    }

    method AddCertToKey(cert: Cert, keyData: Bytes) returns (ok: bool)
      requires Valid() && keys != map[] && GoodCert(cert) && keyData != []
      modifies this`keys, this`trustValid
      ensures Valid() && keys != map[]
      ensures ok <==> !Clashes(old(keys), C.keyIdOf(keyData), keyData)
      ensures keys == if ok then WithCert(old(keys), C.keyIdOf(keyData), keyData, cert) else old(keys)
      ensures ok ==>
                var id := C.keyIdOf(keyData);
                && id in keys && keys[id].keyData == keyData
                && exists c :: c in keys[id].certs && c.signature == cert.signature
      ensures trustValid ==> old(trustValid) && keys == old(keys)
    {
      hide Consistent, Evaluated, GoodCert, WellFormed;
      var id := C.keyIdOf(keyData);
      ghost var start := keys;
      if id in keys {
        KeyWithoutData(C, keys, id);
        if keys[id].keyData != keyData {
          if keys[id].keyData != [] {
            return false;
          }
          assert keys[id].trust.Revoked? && keys[id].certs == [];
          keys := keys[id := keys[id].(keyData := keyData)];
        }
        for i := 0 to |keys[id].certs|
          invariant forall k | 0 <= k < i :: keys[id].certs[k].signature != cert.signature
        {
          if keys[id].certs[i].signature == cert.signature {
            assert keys[id].certs[i] in keys[id].certs && keys == start;
            return true;
          }
        }
      } else {
        keys := keys[id := PublicKey(Unknown, keyData, [], EMPTY_SCOPE, -1)];
      }
      AppendCert(C, start, id, keys[id], cert);
      keys := keys[id := keys[id].(certs := keys[id].certs + [cert])];
      assert keys == start[id := keys[id]];
      trustValid := false;
      return true;
    }

    // ---------- Asking the store ----------

    /** The scope of a CA key whose signature the data bears. */
    method CheckCASignature(signedData: Bytes, caKeyId: KeyId, signature: Bytes, timeNow: int)
      returns (r: Option<CertAuthScope>)
      requires Valid()
      modifies this
      ensures Valid() && trustValid
      ensures SameGraph(Initialised(C, old(keys)), keys)
      ensures r.Some? <==>
                && signedData != [] && |signature| == 64 && caKeyId != 0 && caKeyId in keys
                && keys[caKeyId].trust.IsTrusted() && timeNow <= keys[caKeyId].effective.timeExpiry
                && keys[caKeyId].keyData != [] && C.verify(keys[caKeyId].keyData, signedData, signature)
      ensures r.Some? ==> r.value == keys[caKeyId].effective
    {
      EnsureTrustValid();
      hide Valid, SameGraph;
      if signedData == [] || signature == [] || caKeyId == 0 {
        return None;
      }
      if caKeyId !in keys {
        return None;
      }
      var key := keys[caKeyId];
      if !key.trust.IsTrusted() {
        return None;
      }
      if key.effective.timeExpiry < timeNow {
        return None;
      }
      if |signature| != 64 || !Verifies(C, key, signedData, signature) {
        return None;
      }
      return Some(key.effective);
    }

    /** Check a peer's certificate: its chain, its own expiry, and that its key is not revoked. */
    method CheckCert(signedData: Bytes, caKeyId: KeyId, signature: Bytes, timeNow: int)
      returns (r: Option<(CertAuthScope, CertMsg)>)
      requires Valid()
      modifies this
      ensures Valid() && trustValid
      ensures SameGraph(Initialised(C, old(keys)), keys)
      ensures r.Some? <==>
                && signedData != [] && |signature| == 64 && caKeyId != 0 && caKeyId in keys
                && keys[caKeyId].trust.IsTrusted() && timeNow <= keys[caKeyId].effective.timeExpiry
                && keys[caKeyId].keyData != [] && C.verify(keys[caKeyId].keyData, signedData, signature)
                && C.parse(signedData).Some?
                && var m := C.parse(signedData).value;
                   && timeNow <= m.timeExpiry && m.ed25519 && C.keyIdOf(m.keyData) != 0
                   && (C.keyIdOf(m.keyData) in keys ==> !keys[C.keyIdOf(m.keyData)].trust.Revoked?)
      ensures r.Some? ==> r.value == (keys[caKeyId].effective, C.parse(signedData).value)
    {
      var scope := CheckCASignature(signedData, caKeyId, signature, timeNow);
      if scope.None? {
        return None;
      }
      var parsed := C.parse(signedData);
      if parsed.None? {
        return None;
      }
      var m := parsed.value;
      if m.timeExpiry < timeNow || !m.ed25519 {
        return None;
      }
      var id := C.keyIdOf(m.keyData);
      if id == 0 {
        return None;
      }
      if id in keys {
        if keys[id].trust.NotTrusted? {
          // Known, but not vouched for by the store; the signature just checked is enough.
        } else if !keys[id].trust.IsTrusted() {
          assert keys[id].trust.Revoked?;
          return None;
        }
      }
      return Some((scope.value, m));
    }

    /** The scope the store itself vouches for a key. */
    method CheckPublicKey(id: KeyId, timeNow: int) returns (r: Option<CertAuthScope>)
      requires Valid()
      modifies this
      ensures Valid() && trustValid
      ensures SameGraph(Initialised(C, old(keys)), keys)
      ensures r.Some? <==> id in keys && keys[id].trust.IsTrusted() && timeNow <= keys[id].effective.timeExpiry
      ensures r.Some? ==> r.value == keys[id].effective
    {
      EnsureTrustValid();
      hide Valid, SameGraph;
      if id in keys && keys[id].trust.Revoked? {
        return None;
      }
      if id !in keys || !keys[id].trust.IsTrusted() {
        return None;
      }
      if keys[id].effective.timeExpiry < timeNow {
        return None;
      }
      return Some(keys[id].effective);
    }

    /** Admit a peer to an app.  If it is admitted there is a chain of verified signatures from
        the signer of its certificate to the root, none of whose certificates has expired and,
        unless a link widens, all of which grant the app. */
    method AuthorizeApp(signedData: Bytes, caKeyId: KeyId, signature: Bytes, timeNow: int, app: Item) returns (ok: bool)
      requires Valid() && app != INVALID_ITEM
      modifies this
      ensures Valid() && trustValid
      ensures SameGraph(Initialised(C, old(keys)), keys)
      ensures ok <==>
                && signedData != [] && |signature| == 64 && caKeyId != 0 && caKeyId in keys
                && keys[caKeyId].trust.IsTrusted() && timeNow <= keys[caKeyId].effective.timeExpiry
                && keys[caKeyId].effective.apps.HasItem(app)
                && keys[caKeyId].keyData != [] && C.verify(keys[caKeyId].keyData, signedData, signature)
                && C.parse(signedData).Some?
                && var m := C.parse(signedData).value;
                   && timeNow <= m.timeExpiry && m.ed25519 && C.keyIdOf(m.keyData) != 0
                   && (C.keyIdOf(m.keyData) in keys ==> !keys[C.keyIdOf(m.keyData)].trust.Revoked?)
                   && (m.appIds == [] || app in m.appIds)
      ensures ok ==> exists chain :: AuthorisedChain(C, keys, chain, caKeyId, timeNow, app)
    {
      var r := CheckCert(signedData, caKeyId, signature, timeNow);
      if r.None? {
        return false;
      }
      ok := CheckCertAppID(r.value.1, Some(r.value.0), app);
      if ok {
        var chain := AuthorisedByChain(C, keys, age, caKeyId, timeNow, app);
      }
    }
  }

  /** Does the certificate, and the CA scope if there is one, allow the app? */
  method CheckCertAppID(m: CertMsg, scope: Option<CertAuthScope>, app: Item) returns (ok: bool)
    ensures ok <==> (m.appIds == [] || app in m.appIds) && (scope.Some? ==> scope.value.apps.HasItem(app))
  {
    if |m.appIds| == 0 {
      return scope.None? || scope.value.apps.HasItem(app);
    }
    for i := 0 to |m.appIds|
      invariant app !in m.appIds[..i]
    {
      if m.appIds[i] == app {
        return scope.None? || scope.value.apps.HasItem(app);
      }
    }
    return false;
  }

  // ---------- What each call does ----------

  /** An empty store gets the root key before it is used. */
  function Initialised(C: Crypto, keys: Keys): Keys {
    if keys == map[] then map[C.keyIdOf(C.rootKey) := PublicKey(Hardcoded, C.rootKey, [], FULL_SCOPE, -1)] else keys
  }

  function WithRevoked(keys: Keys, id: KeyId): Keys {
    keys[id := if id in keys then keys[id].(trust := Revoked) else PublicKey(Revoked, [], [], EMPTY_SCOPE, -1)]
  }

  /** Other data is known for the key than a certificate says. */
  predicate Clashes(keys: Keys, id: KeyId, keyData: Bytes) {
    id in keys && keys[id].keyData != [] && keys[id].keyData != keyData
  }

  /** The certificate is listed under its key, unless one with its signature is there already;
      a key without data gets it. */
  ghost function WithCert(keys: Keys, id: KeyId, keyData: Bytes, cert: Cert): Keys {
    var key := if id in keys then keys[id].(keyData := keyData) else PublicKey(Unknown, keyData, [], EMPTY_SCOPE, -1);
    var known := exists c :: c in key.certs && c.signature == cert.signature;
    keys[id := if known then key else key.(certs := key.certs + [cert])]
  }

  ghost predicate CertFrom(m: CertMsg, signedData: Bytes, caKeyId: KeyId, signature: Bytes, c: Cert) {
    && c.signedData == signedData && c.caKeyId == caKeyId && c.signature == signature
    && c.timeCreated == m.timeCreated && c.scope.timeExpiry == m.timeExpiry
    && GrantsListed(c.scope.pops, m.popIds) && GrantsListed(c.scope.apps, m.appIds)
  }

  /** The certificate, or an older one with its signature, is listed under the key it is for;
      old certificates stay, and so do trust and all other keys. */
  ghost predicate Listed(a: Keys, b: Keys, id: KeyId, m: CertMsg, signedData: Bytes, caKeyId: KeyId, signature: Bytes) {
    && b.Keys == a.Keys + {id} && (forall k | k in a && k != id :: b[k] == a[k])
    && b[id].keyData == m.keyData && b[id].trust == (if id in a then a[id].trust else Unknown)
    && (if id in a && exists c :: c in a[id].certs && c.signature == signature then b[id].certs == a[id].certs
        else
          && |b[id].certs| > 0
          && b[id].certs[..|b[id].certs| - 1] == (if id in a then a[id].certs else [])
          && CertFrom(m, signedData, caKeyId, signature, b[id].certs[|b[id].certs| - 1]))
  }

  lemma WithCertLists(a: Keys, m: CertMsg, signedData: Bytes, caKeyId: KeyId, signature: Bytes, cert: Cert, id: KeyId)
    requires CertFrom(m, signedData, caKeyId, signature, cert)
    ensures Listed(a, WithCert(a, id, m.keyData, cert), id, m, signedData, caKeyId, signature)
  {
    assert cert.signature == signature;
    hide CertFrom;
    var b := WithCert(a, id, m.keyData, cert);
    var certs := if id in a then a[id].certs else [];
    assert (certs + [cert])[..|certs|] == certs;
  }

  predicate Addable(C: Crypto, keys: Keys, signedData: Bytes, signature: Bytes) {
    && signedData != [] && |signature| == 64 && C.parse(signedData).Some?
    && var m := C.parse(signedData).value;
       && !m.identityBound && m.ed25519 && |m.keyData| == 32 && m.timeExpiry > 0
       && !Clashes(keys, C.keyIdOf(m.keyData), m.keyData)
  }

  ghost predicate CertAdded(C: Crypto, keys: Keys, signedData: Bytes, caKeyId: KeyId, signature: Bytes, after: Keys) {
    if Addable(C, keys, signedData, signature) then
      var m := C.parse(signedData).value;
      exists cert :: CertFrom(m, signedData, caKeyId, signature, cert)
                     && after == WithCert(keys, C.keyIdOf(m.keyData), m.keyData, cert)
    else after == keys
  }

  /** Keys and certificates are only ever added, and no trust changes. */
  ghost predicate OnlyAdds(a: Keys, b: Keys) {
    && (forall k | k in a :: k in b && b[k].trust == a[k].trust && a[k].certs <= b[k].certs)
    && (forall k | k in b && k !in a :: b[k].trust.Unknown?)
  }

  /** The root key is in the store and has not been revoked. */
  ghost predicate HasRoot(keys: Keys) {
    exists id :: id in keys && keys[id].trust.Hardcoded?
  }

  /** A store vouches for some key iff it has the root. */
  lemma TrustNeedsRoot(C: Crypto, keys: Keys, age: map<KeyId, nat>)
    requires Sound(C, keys, age)
    ensures (exists id :: id in keys && keys[id].trust.IsTrusted()) <==> HasRoot(keys)
  {
    if id :| id in keys && keys[id].trust.IsTrusted() {
      var chain := TrustedHasChain(C, keys, age, id);
      assert chain[|chain| - 1] in keys;
    }
  }

  /** Neither new certificates nor an evaluation bring the root into a store without it. */
  lemma RootStays(a: Keys, b: Keys)
    requires SameGraph(a, b) || OnlyAdds(a, b)
    ensures HasRoot(a) <==> HasRoot(b)
  {
    if id :| id in a && a[id].trust.Hardcoded? {
      assert id in b && b[id].trust.Hardcoded?;
    }
    if id :| id in b && b[id].trust.Hardcoded? {
      assert id in a && a[id].trust.Hardcoded?;
    }
  }

  lemma InitialisedRoot(C: Crypto, keys: Keys)
    ensures HasRoot(Initialised(C, keys)) <==> keys == map[] || HasRoot(keys)
  {
    assert keys == map[] ==> C.keyIdOf(C.rootKey) in Initialised(C, keys);
  }

  // ---------- Runs ----------

  datatype Call = Add(signedData: Bytes, caKeyId: KeyId, signature: Bytes) | Revoke(id: KeyId) | Evaluate

  ghost predicate Stepped(C: Crypto, keys: Keys, call: Call, after: Keys) {
    match call
    case Add(signedData, caKeyId, signature) =>
      CertAdded(C, Initialised(C, keys), signedData, caKeyId, signature, after)
    case Revoke(id) => after == WithRevoked(keys, id)
    case Evaluate => SameGraph(Initialised(C, keys), after) && Decided(after)
  }

  /** The stores that a run of calls leads through. */
  ghost predicate IsRun(C: Crypto, calls: seq<Call>, history: seq<Keys>) {
    && |history| == |calls| + 1 && (forall keys | keys in history :: WellFormed(C, keys))
    && forall k | 0 <= k < |calls| :: Stepped(C, history[k], calls[k], history[k + 1])
  }

  /** Additions, revocations and evaluations in any order. */
  method Run(store: CertStore, calls: seq<Call>) returns (ghost history: seq<Keys>)
    requires store.Valid()
    modifies store
    ensures store.Valid() && IsRun(store.C, calls, history)
    ensures history[0] == old(store.keys) && history[|calls|] == store.keys
    ensures calls != [] && calls[|calls| - 1].Evaluate? ==>
              store.trustValid
              && ((exists id :: id in store.keys && store.keys[id].trust.IsTrusted()) <==> HasRoot(store.keys))
  {
    hide WellFormed, Stepped, HasRoot;
    ghost var C := store.C;
    history := [store.keys];
    store.ValidIsWellFormed();
    for k := 0 to |calls|
      invariant store.Valid() && |history| == k + 1 && history[0] == old(store.keys) && history[k] == store.keys
      invariant forall keys | keys in history :: WellFormed(C, keys)
      invariant forall i | 0 <= i < k :: Stepped(C, history[i], calls[i], history[i + 1])
      invariant k > 0 && calls[k - 1].Evaluate? ==>
                  store.trustValid
                  && ((exists id :: id in store.keys && store.keys[id].trust.IsTrusted()) <==> HasRoot(store.keys))
    {
      ghost var before := store.keys;
      TakeCall(store, calls[k]);
      history := history + [store.keys];
    }
  }

  method TakeCall(store: CertStore, call: Call)
    requires store.Valid()
    modifies store
    ensures store.Valid() && WellFormed(store.C, store.keys) && Stepped(store.C, old(store.keys), call, store.keys)
    ensures call.Evaluate? ==>
              store.trustValid
              && ((exists id :: id in store.keys && store.keys[id].trust.IsTrusted()) <==> HasRoot(store.keys))
  {
    hide WellFormed, HasRoot, SameGraph, Exact, Sound, CertAdded, WithRevoked;
    match call {
      case Add(signedData, caKeyId, signature) =>
        var _ := store.AddCert(signedData, caKeyId, signature);
      case Revoke(id) =>
        store.AddKeyRevocation(id);
      case Evaluate =>
        ghost var start := Initialised(store.C, store.keys);
        store.EnsureTrustValid();
        RootStays(start, store.keys);
    }
  }

  /** What one call does to the root. */
  lemma RootStep(C: Crypto, keys: Keys, call: Call, after: Keys)
    requires WellFormed(C, keys) && Stepped(C, keys, call, after)
    ensures after != map[]
    ensures HasRoot(after) <==>
              if call.Revoke? then HasRoot(keys) && call.id != C.keyIdOf(C.rootKey) else keys == map[] || HasRoot(keys)
  {
    hide WellFormed, SameGraph, OnlyAdds, WithCert;
    InitialisedRoot(C, keys);
    match call {
      case Add(signedData, caKeyId, signature) =>
        AddStays(C, Initialised(C, keys), signedData, caKeyId, signature, after);
      case Revoke(id) =>
        RevokedRoot(C, keys, id);
      case Evaluate =>
        RootStays(Initialised(C, keys), after);
        SameGraphKeys(Initialised(C, keys), after);
    }
    hide HasRoot;
  }

  lemma SameGraphKeys(a: Keys, b: Keys)
    requires SameGraph(a, b) && a != map[]
    ensures b != map[]
  {
    assert a.Keys != {};
  }

  lemma AddStays(C: Crypto, keys: Keys, signedData: Bytes, caKeyId: KeyId, signature: Bytes, after: Keys)
    requires CertAdded(C, keys, signedData, caKeyId, signature, after) && keys != map[]
    ensures after != map[] && (HasRoot(keys) <==> HasRoot(after))
  {
    hide CertFrom, HasRoot;
    if Addable(C, keys, signedData, signature) {
      var m := C.parse(signedData).value;
      var id := C.keyIdOf(m.keyData);
      var cert :| CertFrom(m, signedData, caKeyId, signature, cert) && after == WithCert(keys, id, m.keyData, cert);
      AddedOnlyAdds(keys, id, m.keyData, cert);
      RootStays(keys, after);
      assert id in after;
    }
  }

  lemma RevokedRoot(C: Crypto, keys: Keys, id: KeyId)
    requires WellFormed(C, keys)
    ensures WithRevoked(keys, id) != map[]
    ensures HasRoot(WithRevoked(keys, id)) <==> HasRoot(keys) && id != C.keyIdOf(C.rootKey)
  {
    var after := WithRevoked(keys, id);
    assert id in after;
    if k :| k in after && after[k].trust.Hardcoded? {
      assert k in keys && keys[k].trust.Hardcoded?;
    }
    if k :| k in keys && keys[k].trust.Hardcoded? {
      assert k in after && (k != id ==> after[k].trust.Hardcoded?);
    }
  }

  /** After any run the root is in the store iff it was there, or the store was empty and the
      first call was not a revocation, and it has not been revoked. */
  lemma {:induction false} RootAfterRun(C: Crypto, calls: seq<Call>, history: seq<Keys>, k: nat)
    requires IsRun(C, calls, history) && k <= |calls|
    ensures HasRoot(history[k]) <==>
              && (HasRoot(history[0]) || (history[0] == map[] && k > 0 && !calls[0].Revoke?))
              && Revoke(C.keyIdOf(C.rootKey)) !in calls[..k]
    ensures k > 0 ==> history[k] != map[]
  {
    if k > 0 {
      hide WellFormed, Stepped, HasRoot;
      RootAfterRun(C, calls, history, k - 1);
      RootStep(C, history[k - 1], calls[k - 1], history[k]);
      assert calls[..k] == calls[..k - 1] + [calls[k - 1]];
      NoRootInNothing(history[0]);
    }
  }

  lemma NoRootInNothing(keys: Keys)
    ensures keys == map[] ==> !HasRoot(keys)
  {
  }

  /** When the first call an empty store sees is a revocation, the root never gets in, whatever
      calls follow. */
  lemma RevokeFirst(C: Crypto, calls: seq<Call>, history: seq<Keys>, k: nat)
    requires IsRun(C, calls, history) && k <= |calls| && history[0] == map[] && calls != [] && calls[0].Revoke?
    ensures !HasRoot(history[k])
  {
    RootAfterRun(C, calls, history, k);
    NoRootInNothing(history[0]);
    hide HasRoot, WellFormed, Stepped;
  }

  /** Once revoked, a key stays revoked through whatever calls follow, and is on no chain. */
  lemma {:induction false} RevokedForGood(C: Crypto, calls: seq<Call>, history: seq<Keys>, i: nat, k: nat)
    requires IsRun(C, calls, history) && i < k <= |calls| && calls[i].Revoke?
    ensures calls[i].id in history[k] && history[k][calls[i].id].trust.Revoked?
    ensures forall chain :: IsChain(C, history[k], chain) ==> calls[i].id !in chain
    decreases k
  {
    hide WellFormed;
    var id := calls[i].id;
    if k > i + 1 {
      RevokedForGood(C, calls, history, i, k - 1);
      RevokedStays(C, history[k - 1], calls[k - 1], history[k], id);
    } else {
      assert Stepped(C, history[i], calls[i], history[i + 1]);
    }
    hide Stepped, Linked;
  }

  lemma RevokedStays(C: Crypto, keys: Keys, call: Call, after: Keys, id: KeyId)
    requires Stepped(C, keys, call, after) && id in keys && keys[id].trust.Revoked?
    ensures id in after && after[id].trust.Revoked?
  {
    hide CertFrom;
    assert Initialised(C, keys) == keys;
  }

  lemma KeyWithoutData(C: Crypto, keys: Keys, id: KeyId)
    requires WellFormed(C, keys) && id in keys
    ensures keys[id].keyData == [] ==> keys[id].certs == [] && keys[id].trust.Revoked?
  {
  }

  /** The key may be new, or revoked and only now filled in. */
  lemma AppendCert(C: Crypto, keys: Keys, id: KeyId, key: PublicKey, cert: Cert)
    requires WellFormed(C, keys) && GoodCert(cert) && key.keyData != []
    requires if id in keys then key == keys[id] || (keys[id].trust.Revoked? && key == keys[id].(keyData := key.keyData))
             else key == PublicKey(Unknown, key.keyData, [], EMPTY_SCOPE, -1)
    ensures var after := keys[id := key.(certs := key.certs + [cert])];
            WellFormed(C, after)
  {
    var certs := key.certs + [cert];
    assert certs[|key.certs|] == cert;
  }

  lemma AddedOnlyAdds(a: Keys, id: KeyId, keyData: Bytes, cert: Cert)
    ensures OnlyAdds(a, a) && OnlyAdds(a, WithCert(a, id, keyData, cert))
  {
  }

  /** The parameter means the items of a message's list, or all items if the list is empty. */
  ghost predicate GrantsListed(p: CertAuthParameter, list: seq<Item>) {
    if list == [] then p == ALL_ITEMS else StrictlySorted(p.items) && forall x :: x in p.items <==> x in list
  }
}