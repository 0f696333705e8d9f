/** Model of joint-signature verification: `python/src/wcm/_verify.py`. */
module JointSignature {
  import opened Wrappers

  /*
   Whether a signature verifies cryptographically under a trusted key is recorded in its block.
   Key ids are SHA-256 digests; their order is that of the numbers they spell.
  */

  type KeyId = nat

  datatype Role = Builder | Custodian | Sovereign | Additional

  /** One signature block: its claims, and whether its bytes verify under the trusted key material. */
  datatype Block = Block(role: Role, signer: string, keyId: KeyId, algorithm: nat, verifies: bool)

  datatype Manifest = Manifest(
    builder: string, custodian: string, sovereignEnabled: bool, sovereignSigner: string,
    byomSymmetric: bool, signatures: seq<Block>)

  /** Trusted keys with the algorithm each is trusted for, and the role bindings, if any. */
  datatype Context = Context(keys: map<KeyId, nat>, bindings: set<(KeyId, Role, string)>)

  datatype SignatureResult = SignatureResult(role: Role, signer: string, keyId: KeyId, valid: bool)

  function RequiredRoles(m: Manifest): (roles: seq<Role>) {
    [Builder, Custodian] + if m.sovereignEnabled then [Sovereign] else []
  }

  predicate RoleAuthorized(ctx: Context, m: Manifest, b: Block) {
    if ctx.bindings == {} || b.role !in RequiredRoles(m) then true
    else
      var identity := match b.role
                      case Builder => m.builder
                      case Custodian => m.custodian
                      case _ => m.sovereignSigner;
      b.signer == identity && (b.keyId, b.role, b.signer) in ctx.bindings
  }

  /** The block is trusted, matches its key's algorithm, verifies, and its key may act in its role. */
  predicate BlockValid(ctx: Context, m: Manifest, b: Block) {
    && b.keyId in ctx.keys && ctx.keys[b.keyId] == b.algorithm
    && b.verifies && RoleAuthorized(ctx, m, b)
  }

  predicate SharedOk(m: Manifest) {
    m.byomSymmetric && m.builder == m.custodian
  }

  /** The result speaks for the role; the sovereign must be the declared one. */
  predicate SpeaksFor(m: Manifest, r: SignatureResult, role: Role) {
    r.valid && r.role == role && (role == Sovereign ==> r.signer == m.sovereignSigner)
  }

  // ------------------------------------------------------------------ assignments of keys to roles

  type Combo = seq<Option<KeyId>>

  /** Two roles may share one key only when builder and custodian are one party by design. */
  predicate MayShare(shared: bool, r1: Role, r2: Role) {
    shared && {r1, r2} == {Builder, Custodian}
  }

  predicate Clash(shared: bool, roles: seq<Role>, c: Combo)
    requires |c| == |roles|
  {
    exists i, j :: 0 <= i < j < |c| && c[i].Some? && c[i] == c[j] && !MayShare(shared, roles[i], roles[j])
  }

  function Chosen(roles: seq<Role>, c: Combo): (s: set<Role>)
    requires |c| == |roles|
  {
    set i | 0 <= i < |c| && c[i].Some? :: roles[i]
  }

  /** The combination takes each of its entries from that role's candidates. */
  ghost predicate IsChoice(cands: seq<Combo>, c: Combo) {
    |c| == |cands| && forall i :: 0 <= i < |c| ==> c[i] in cands[i]
  }

  /** `[(x, *rest) for rest in tails]` for one `x`. */
  function PrependAll(x: Option<KeyId>, tails: seq<Combo>): (r: seq<Combo>)
    ensures |r| == |tails|
    ensures forall i :: 0 <= i < |r| ==> r[i] == [x] + tails[i]
  {
    if tails == [] then [] else [[x] + tails[0]] + PrependAll(x, tails[1..])
  }

  function PrependEach(xs: Combo, tails: seq<Combo>): (r: seq<Combo>) {
    if xs == [] then [] else PrependAll(xs[0], tails) + PrependEach(xs[1..], tails)
  }

  /** `itertools.product`, the last position varying fastest. */
  function Product(cands: seq<Combo>): (r: seq<Combo>) {
    if cands == [] then [[]] else PrependEach(cands[0], Product(cands[1..]))
  }

  lemma {:induction false} PrependEachHas(xs: Combo, tails: seq<Combo>, c: Combo)
    ensures c in PrependEach(xs, tails) <==> |c| > 0 && c[0] in xs && c[1..] in tails
  {
    if xs != [] {
      var front := PrependAll(xs[0], tails);
      PrependEachHas(xs[1..], tails, c);
      assert c in PrependEach(xs, tails) <==> c in front || c in PrependEach(xs[1..], tails);
      assert c in front <==> |c| > 0 && c[0] == xs[0] && c[1..] in tails by {
        PrependAllHas(xs[0], tails, c);
      }
      assert |c| > 0 ==> (c[0] in xs <==> c[0] == xs[0] || c[0] in xs[1..]);
    }
  }

  lemma {:induction false} PrependAllHas(x: Option<KeyId>, tails: seq<Combo>, c: Combo)
    ensures c in PrependAll(x, tails) <==> |c| > 0 && c[0] == x && c[1..] in tails
  {
    var front := PrependAll(x, tails);
    if c in front {
      var i :| 0 <= i < |front| && front[i] == c;
      assert c == [x] + tails[i] && c[1..] == tails[i];
    }
    if |c| > 0 && c[0] == x && c[1..] in tails {
      var i :| 0 <= i < |tails| && tails[i] == c[1..];
      assert front[i] == [x] + tails[i] == c;
    }
  }

  /** The product holds exactly the choices. */
  lemma {:induction false} ProductHas(cands: seq<Combo>, c: Combo)
    ensures c in Product(cands) <==> IsChoice(cands, c)
  {
    if cands == [] {
      assert c in [[]] <==> c == [];
    } else {
      PrependEachHas(cands[0], Product(cands[1..]), c);
      if |c| > 0 {
        ProductHas(cands[1..], c[1..]);
        assert IsChoice(cands, c) <==> c[0] in cands[0] && IsChoice(cands[1..], c[1..]) by {
          assert forall i :: 0 <= i < |c| - 1 ==> c[1..][i] == c[i + 1];
          assert forall i :: 0 <= i < |cands| - 1 ==> cands[1..][i] == cands[i + 1];
          assert forall i :: 1 <= i < |c| ==> c[i] == c[1..][i - 1];
          assert forall i :: 1 <= i < |cands| ==> cands[i] == cands[1..][i - 1];
        }
      }
    }
  }

  ghost predicate DistinctRoles(roles: seq<Role>) {
    forall i, j :: 0 <= i < j < |roles| ==> roles[i] != roles[j]
  }

  /** The number of entries of a combination that hold a key. */
  function Count(c: Combo): (n: nat) {
    if c == [] then 0 else (if c[0].Some? then 1 else 0) + Count(c[1..])
  }

  lemma {:induction false} CountIsChosen(roles: seq<Role>, c: Combo)
    requires |c| == |roles| && DistinctRoles(roles)
    ensures Count(c) == |Chosen(roles, c)|
  {
    if c == [] {
      assert Chosen(roles, c) == {};
    } else {
      CountIsChosen(roles[1..], c[1..]);
      var tail := Chosen(roles[1..], c[1..]);
      assert roles[0] !in tail;
      assert forall r :: r in Chosen(roles, c) <==> r in tail || (c[0].Some? && r == roles[0]);
      assert Chosen(roles, c) == tail + if c[0].Some? then {roles[0]} else {};
    }
  }

  /** No clash-free choice covers more roles, and one covers exactly these. */
  ghost predicate Largest(shared: bool, roles: seq<Role>, cands: seq<Combo>, best: set<Role>)
    requires |cands| == |roles|
  {
    && (exists c :: IsChoice(cands, c) && !Clash(shared, roles, c) && best == Chosen(roles, c))
    && (forall c :: IsChoice(cands, c) && !Clash(shared, roles, c) ==> Count(c) <= |best|)
  }

  lemma {:induction false} LargestHas(shared: bool, roles: seq<Role>, cands: seq<Combo>, best: set<Role>)
    returns (c: Combo)
    requires |cands| == |roles| && Largest(shared, roles, cands, best)
    ensures IsChoice(cands, c) && |c| == |roles| && !Clash(shared, roles, c) && best == Chosen(roles, c)
    ensures forall r :: r in best ==> r in roles
  {
    c :| IsChoice(cands, c) && !Clash(shared, roles, c) && best == Chosen(roles, c);
    ChoiceLength(cands, c);
  }

  lemma {:induction false} LargestBounds(shared: bool, roles: seq<Role>, cands: seq<Combo>, best: set<Role>, c: Combo)
    requires |cands| == |roles| == |c| && Largest(shared, roles, cands, best)
    requires IsChoice(cands, c) && !Clash(shared, roles, c)
    ensures Count(c) <= |best|
  {
  }

  /** Combination `at` of the product is clash-free, covers `best`, and is the first of its size. */
  ghost predicate FirstOfItsSize(shared: bool, roles: seq<Role>, combos: seq<Combo>, best: set<Role>, at: int) {
    && 0 <= at < |combos| && (forall i :: 0 <= i < |combos| ==> |combos[i]| == |roles|)
    && !Clash(shared, roles, combos[at]) && best == Chosen(roles, combos[at])
    && (forall i :: 0 <= i < at && !Clash(shared, roles, combos[i]) ==> Count(combos[i]) < |best|)
  }

  /** The search over all combinations, as the source runs it. */
  method RolesWithDistinctKeys(shared: bool, roles: seq<Role>, cands: seq<Combo>)
    returns (best: set<Role>, ghost at: int)
    requires |cands| == |roles| && DistinctRoles(roles)
    requires forall i :: 0 <= i < |cands| ==> None in cands[i]
    ensures Largest(shared, roles, cands, best)
    ensures best != {} ==> FirstOfItsSize(shared, roles, Product(cands), best, at)
  {
    var combos := Product(cands);
    forall i | 0 <= i < |combos|
      ensures IsChoice(cands, combos[i])
    {
      ProductHas(cands, combos[i]);
    }
    best, at := {}, -1;
    for k := 0 to |combos|
      invariant -1 <= at < k
      invariant at == -1 ==> best == {}
      invariant at >= 0 ==> FirstOfItsSize(shared, roles, combos, best, at)
      invariant forall i :: 0 <= i < k && !Clash(shared, roles, combos[i]) ==> Count(combos[i]) <= |best|
    {
      hide Clash, Count, IsChoice, Chosen;
      var combo := combos[k];
      assert |combo| == |roles| by { ChoiceLength(cands, combo); }
      CountIsChosen(roles, combo);
      if Count(combo) > |best| && !Clash(shared, roles, combo) {
        best, at := Chosen(roles, combo), k;
      }
    }
    Settle(shared, roles, cands, combos, best, at);
  }

  lemma {:induction false} ChoiceLength(cands: seq<Combo>, c: Combo)
    requires IsChoice(cands, c)
    ensures |c| == |cands|
  {
  }

  lemma {:induction false} Settle(shared: bool, roles: seq<Role>, cands: seq<Combo>, combos: seq<Combo>,
                                  best: set<Role>, at: int)
    requires |cands| == |roles| && forall i :: 0 <= i < |cands| ==> None in cands[i]
    requires combos == Product(cands)
    requires forall i :: 0 <= i < |combos| ==> |combos[i]| == |roles| && IsChoice(cands, combos[i])
    requires at == -1 ==> best == {}
    requires at != -1 ==> FirstOfItsSize(shared, roles, combos, best, at)
    requires forall i :: 0 <= i < |combos| && !Clash(shared, roles, combos[i]) ==> Count(combos[i]) <= |best|
    ensures Largest(shared, roles, cands, best)
  {
    hide Product, Count;
    if at == -1 {
      var none: Combo := seq(|roles|, i => None);
      assert IsChoice(cands, none) && !Clash(shared, roles, none) && Chosen(roles, none) == {};
    } else {
      assert IsChoice(cands, combos[at]);
    }
    forall c | IsChoice(cands, c) && !Clash(shared, roles, c)
      ensures Count(c) <= |best|
    {
      ProductHas(cands, c);
    }
  }

  // ------------------------------------------------------------------ ties keep the builder

  lemma {:induction false} CountUpdate(c: Combo, i: nat, x: Option<KeyId>)
    requires i < |c|
    ensures Count(c[i := x]) == Count(c) - (if c[i].Some? then 1 else 0) + (if x.Some? then 1 else 0)
  {
    if i == 0 {
      assert c[0 := x][1..] == c[1..];
    } else {
      CountUpdate(c[1..], i - 1, x);
      assert c[i := x][1..] == c[1..][i - 1 := x];
    }
  }

  /** Only the last candidate of the first role is None. */
  ghost predicate KeysThenNone(xs: Combo) {
    xs != [] && xs[|xs| - 1] == None && forall i :: 0 <= i < |xs| - 1 ==> xs[i].Some?
  }

  lemma {:induction false} KeyedFirst(xs: Combo, tails: seq<Combo>, i: nat, j: nat)
    requires KeysThenNone(xs) && i < |PrependEach(xs, tails)| && j < |PrependEach(xs, tails)|
    requires |PrependEach(xs, tails)[i]| > 0 && |PrependEach(xs, tails)[j]| > 0
    requires PrependEach(xs, tails)[i][0].Some? && PrependEach(xs, tails)[j][0].None?
    ensures i < j
  {
    var all := PrependEach(xs, tails);
    var front := PrependAll(xs[0], tails);
    assert all == front + PrependEach(xs[1..], tails);
    if |xs| > 1 && i >= |front| && j >= |front| {
      KeyedFirst(xs[1..], tails, i - |front|, j - |front|);
    }
  }

  /** Giving the first role a key, at the cost of the role that held it, keeps a choice clash-free and its size. */
  lemma {:induction false} TakeOver(shared: bool, roles: seq<Role>, cands: seq<Combo>, c: Combo, k: KeyId)
    returns (d: Combo)
    requires |cands| == |roles| > 0 && DistinctRoles(roles) && roles[0] == Builder
    requires forall i :: 0 <= i < |cands| ==> None in cands[i]
    requires IsChoice(cands, c) && !Clash(shared, roles, c) && c[0].None? && Some(k) in cands[0]
    ensures IsChoice(cands, d) && !Clash(shared, roles, d) && d[0].Some? && Count(d) >= Count(c)
  {
    hide Count;
    d := c[0 := Some(k)];
    CountUpdate(c, 0, Some(k));
    if j :| 1 <= j < |c| && c[j] == Some(k) {
      CountUpdate(d, j, None);
      d := d[j := None];
      forall i | 1 <= i < |c| && i != j
        ensures c[i] != Some(k)
      {
        assert roles[i] != Builder && roles[j] != Builder;
        assert Builder in {Builder, Custodian};
      }
    }
  }

  /** On a tie the earlier role is kept: a builder with a valid key is never the one left out. */
  lemma {:induction false} BuilderKept(shared: bool, roles: seq<Role>, cands: seq<Combo>, best: set<Role>, at: int)
    requires |cands| == |roles| > 0 && DistinctRoles(roles) && roles[0] == Builder
    requires forall i :: 0 <= i < |cands| ==> None in cands[i]
    requires KeysThenNone(cands[0]) && |cands[0]| > 1
    requires Largest(shared, roles, cands, best)
    requires best != {} ==> FirstOfItsSize(shared, roles, Product(cands), best, at)
    ensures Builder in best
  {
    hide Count, IsChoice, Clash;
    var k := cands[0][0].value;
    var none: Combo := seq(|roles|, i => None);
    NoneIsChoice(shared, roles, cands, none);
    var one := TakeOver(shared, roles, cands, none, k);
    ChoiceLength(cands, one);
    CountAtLeastOne(one);
    var combos := Product(cands);
    if Builder !in best {
      var c := combos[at];
      ProductHas(cands, c);
      ChoiceLength(cands, c);
      CountIsChosen(roles, c);
      assert c[0].None?;
      var d := TakeOver(shared, roles, cands, c, k);
      ProductHas(cands, d);
      ChoiceLength(cands, d);
      var i :| 0 <= i < |combos| && combos[i] == d;
      KeyedFirst(cands[0], Product(cands[1..]), i, at);
    }
  }

  lemma {:induction false} NoneIsChoice(shared: bool, roles: seq<Role>, cands: seq<Combo>, none: Combo)
    requires |cands| == |roles| == |none| && forall i :: 0 <= i < |cands| ==> None in cands[i] && none[i] == None
    ensures IsChoice(cands, none) && !Clash(shared, roles, none)
  {
  }

  lemma {:induction false} CountAtLeastOne(c: Combo)
    requires c != [] && c[0].Some?
    ensures Count(c) >= 1
  {
  }

  // ------------------------------------------------------------------ the verdict

  function ResultOf(ctx: Context, m: Manifest, b: Block): (r: SignatureResult) {
    SignatureResult(b.role, b.signer, b.keyId, BlockValid(ctx, m, b))
  }

  function Results(ctx: Context, m: Manifest, blocks: seq<Block>): (rs: seq<SignatureResult>)
    ensures |rs| == |blocks|
  {
    if blocks == [] then [] else [ResultOf(ctx, m, blocks[0])] + Results(ctx, m, blocks[1..])
  }

  /** A sorted list without duplicates, with a key added. */
  function AddKey(keys: seq<KeyId>, k: KeyId): (r: seq<KeyId>)
    ensures forall x :: x in r <==> x == k || x in keys
    ensures |r| > 0
  {
    if keys == [] || k < keys[0] then [k] + keys
    else if k == keys[0] then keys
    else
      var tail := AddKey(keys[1..], k);
      assert keys == [keys[0]] + keys[1..];
      [keys[0]] + tail
  }

  /** The keys that speak for a role. */
  function KeysFor(m: Manifest, rs: seq<SignatureResult>, role: Role): (keys: seq<KeyId>)
    ensures forall k :: k in keys <==> exists i :: 0 <= i < |rs| && SpeaksFor(m, rs[i], role) && rs[i].keyId == k
  {
    if rs == [] then []
    else
      var n := |rs| - 1;
      var keys := KeysFor(m, rs[..n], role);
      assert forall i :: 0 <= i < n ==> rs[..n][i] == rs[i];
      if SpeaksFor(m, rs[n], role) then AddKey(keys, rs[n].keyId) else keys
  }

  function WithNone(keys: seq<KeyId>): (c: Combo)
    ensures KeysThenNone(c) && |c| == |keys| + 1
    ensures None in c
    ensures forall k :: Some(k) in c <==> k in keys
  {
    if keys == [] then [None]
    else
      var rest := WithNone(keys[1..]);
      assert keys == [keys[0]] + keys[1..];
      var c := [Some(keys[0])] + rest;
      assert c[|c| - 1] == rest[|rest| - 1];
      c
  }

  function Candidates(m: Manifest, rs: seq<SignatureResult>, roles: seq<Role>): (cands: seq<Combo>)
    ensures |cands| == |roles|
    ensures forall i :: 0 <= i < |roles| ==> cands[i] == WithNone(KeysFor(m, rs, roles[i]))
  {
    seq(|roles|, i requires 0 <= i < |roles| => WithNone(KeysFor(m, rs, roles[i])))
  }

  /** Roles with at least one key that speaks for them, in order. */
  function Spoken(m: Manifest, rs: seq<SignatureResult>, roles: seq<Role>): (r: seq<Role>)
    ensures forall x :: x in r <==> x in roles && KeysFor(m, rs, x) != []
    ensures DistinctRoles(roles) ==> DistinctRoles(r)
  {
    if roles == [] then []
    else
      var rest := Spoken(m, rs, roles[1..]);
      assert roles == [roles[0]] + roles[1..];
      if KeysFor(m, rs, roles[0]) != [] then [roles[0]] + rest else rest
  }

  /**
   An assignment of keys to roles: each role gets a key that speaks for it, and two roles share
   a key only where builder and custodian are one party by design.
   */
  ghost predicate IsAssignment(m: Manifest, rs: seq<SignatureResult>, a: map<Role, KeyId>) {
    && (forall r :: r in a ==> exists i :: 0 <= i < |rs| && SpeaksFor(m, rs[i], r) && rs[i].keyId == a[r])
    && (forall r1, r2 :: r1 in a && r2 in a && r1 != r2 && a[r1] == a[r2] ==> MayShare(SharedOk(m), r1, r2))
  }

  /** The combination an assignment stands for. */
  function ComboOf(roles: seq<Role>, a: map<Role, KeyId>): (c: Combo)
    ensures |c| == |roles|
    ensures forall i :: 0 <= i < |roles| ==> c[i] == if roles[i] in a then Some(a[roles[i]]) else None
  {
    if roles == [] then []
    else [if roles[0] in a then Some(a[roles[0]]) else None] + ComboOf(roles[1..], a)
  }

  lemma {:induction false} AssignmentIsChoice(m: Manifest, rs: seq<SignatureResult>, roles: seq<Role>, a: map<Role,
                                              KeyId>)
    requires DistinctRoles(roles) && IsAssignment(m, rs, a) && forall r :: r in a ==> r in roles
    ensures var c := ComboOf(roles, a);
      && IsChoice(Candidates(m, rs, roles), c) && !Clash(SharedOk(m), roles, c) && Chosen(roles, c) == a.Keys
  {
    hide KeysFor, WithNone, Candidates, SpeaksFor, ComboOf, SharedOk;
    var c := ComboOf(roles, a);
    assert forall i :: 0 <= i < |c| ==> c[i] in Candidates(m, rs, roles)[i];
  }

  /** The assignment a clash-free choice stands for. */
  lemma {:induction false} ChoiceIsAssignment(m: Manifest, rs: seq<SignatureResult>, roles: seq<Role>, c: Combo)
    returns (a: map<Role, KeyId>)
    requires DistinctRoles(roles) && |c| == |roles|
    requires IsChoice(Candidates(m, rs, roles), c) && !Clash(SharedOk(m), roles, c)
    ensures IsAssignment(m, rs, a) && a.Keys == Chosen(roles, c)
  {
    hide KeysFor, WithNone, Candidates, SpeaksFor, SharedOk, Clash;
    a := MapOf(roles, c);
    forall r | r in a
      ensures exists n :: 0 <= n < |rs| && SpeaksFor(m, rs[n], r) && rs[n].keyId == a[r]
    {
      var i := IndexOf(roles, c, r);
    }
    forall r1, r2 | r1 in a && r2 in a && r1 != r2 && a[r1] == a[r2]
      ensures MayShare(SharedOk(m), r1, r2)
    {
      var i := IndexOf(roles, c, r1);
      var j := IndexOf(roles, c, r2);
      SharedPair(SharedOk(m), roles, c, i, j);
    }
  }

  function MapOf(roles: seq<Role>, c: Combo): (a: map<Role, KeyId>)
    requires DistinctRoles(roles) && |c| == |roles|
    ensures a.Keys == Chosen(roles, c)
    ensures forall i :: 0 <= i < |c| && c[i].Some? ==> roles[i] in a && a[roles[i]] == c[i].value
  {
    map i | 0 <= i < |c| && c[i].Some? :: roles[i] := c[i].value
  }

  lemma {:induction false} IndexOf(roles: seq<Role>, c: Combo, r: Role) returns (i: nat)
    requires |c| == |roles| && r in Chosen(roles, c)
    ensures i < |c| && c[i].Some? && roles[i] == r
  {
    i :| 0 <= i < |c| && c[i].Some? && roles[i] == r;
  }

  lemma {:induction false} SharedPair(shared: bool, roles: seq<Role>, c: Combo, i: nat, j: nat)
    requires |c| == |roles| && !Clash(shared, roles, c) && i < |c| && j < |c| && i != j
    requires c[i].Some? && c[i] == c[j]
    ensures MayShare(shared, roles[i], roles[j])
  {
    assert {roles[i], roles[j]} == {roles[j], roles[i]};
  }

  ghost function RoleSet(roles: seq<Role>): (s: set<Role>) {
    set r | r in roles
  }

  /** Every block is valid, and the required roles can be given keys of their own. */
  ghost predicate JointlySigned(m: Manifest, ctx: Context) {
    && (forall i :: 0 <= i < |m.signatures| ==> BlockValid(ctx, m, m.signatures[i]))
    && exists a :: IsAssignment(m, Results(ctx, m, m.signatures), a) && a.Keys == RoleSet(RequiredRoles(m))
  }

  // ------------------------------------------------------------------ the verdict, said of the blocks

  /** The key may speak as this identity in this role: it is bound to both, or nothing is bound at all. */
  ghost predicate Bound(ctx: Context, b: Block, role: Role, identity: string) {
    ctx.bindings != {} && b.role == role ==> b.signer == identity && (b.keyId, role, identity) in ctx.bindings
  }

  /** A block that counts: its key is trusted for its algorithm, it verifies, and it is bound where keys are. */
  ghost predicate Sound(m: Manifest, ctx: Context, b: Block) {
    && b.keyId in ctx.keys && ctx.keys[b.keyId] == b.algorithm
    && b.verifies
    && Bound(ctx, b, Builder, m.builder)
    && Bound(ctx, b, Custodian, m.custodian)
    && (m.sovereignEnabled ==> Bound(ctx, b, Sovereign, m.sovereignSigner))
  }

  ghost predicate EveryBlockSound(m: Manifest, ctx: Context) {
    forall i :: 0 <= i < |m.signatures| ==> Sound(m, ctx, m.signatures[i])
  }

  /** Some block that counts is in this role under this key; for the sovereign, by the declared signer. */
  ghost predicate SignedAs(m: Manifest, ctx: Context, role: Role, key: KeyId) {
    exists i ::
      && 0 <= i < |m.signatures| && m.signatures[i].role == role && m.signatures[i].keyId == key
      && Sound(m, ctx, m.signatures[i])
      && (role == Sovereign ==> m.signatures[i].signer == m.sovereignSigner)
  }

  /** Builder and custodian may be one key only when they are one party by design. */
  ghost predicate TwoParties(m: Manifest, builder: KeyId, custodian: KeyId) {
    builder == custodian ==> m.byomSymmetric && m.builder == m.custodian
  }

  ghost predicate SovereignApart(m: Manifest, ctx: Context, builder: KeyId, custodian: KeyId, sovereign: KeyId) {
    SignedAs(m, ctx, Sovereign, sovereign) && sovereign != builder && sovereign != custodian
  }

  /** A builder's and a custodian's key, and the sovereign's exactly when it is enabled, each its own. */
  ghost predicate EveryPartySigned(m: Manifest, ctx: Context) {
    exists b: KeyId, c: KeyId ::
      && SignedAs(m, ctx, Builder, b) && SignedAs(m, ctx, Custodian, c) && TwoParties(m, b, c)
      && (m.sovereignEnabled ==> exists s: KeyId :: SovereignApart(m, ctx, b, c, s))
  }

  lemma {:induction false} SoundExact(m: Manifest, ctx: Context, b: Block)
    ensures BlockValid(ctx, m, b) <==> Sound(m, ctx, b)
  {
    assert RequiredRoles(m) == if m.sovereignEnabled then [Builder, Custodian, Sovereign] else [Builder, Custodian];
  }

  lemma {:induction false} SignedAsExact(m: Manifest, ctx: Context, role: Role, key: KeyId)
    ensures SignedAs(m, ctx, role, key) <==> key in KeysFor(m, Results(ctx, m, m.signatures), role)
  {
    hide BlockValid, Sound, Results;
    var rs := Results(ctx, m, m.signatures);
    forall i | 0 <= i < |m.signatures|
      ensures rs[i] == ResultOf(ctx, m, m.signatures[i])
      ensures BlockValid(ctx, m, m.signatures[i]) <==> Sound(m, ctx, m.signatures[i])
    {
      ResultsAt(ctx, m, m.signatures, i);
      SoundExact(m, ctx, m.signatures[i]);
    }
    if SignedAs(m, ctx, role, key) {
      var i :| && 0 <= i < |m.signatures| && m.signatures[i].role == role && m.signatures[i].keyId == key
               && Sound(m, ctx, m.signatures[i])
               && (role == Sovereign ==> m.signatures[i].signer == m.sovereignSigner);
      assert SpeaksFor(m, rs[i], role);
    }
    if key in KeysFor(m, rs, role) {
      var i :| 0 <= i < |rs| && SpeaksFor(m, rs[i], role) && rs[i].keyId == key;
      assert m.signatures[i].role == role && m.signatures[i].keyId == key && Sound(m, ctx, m.signatures[i]);
    }
  }

  lemma {:induction false} RequiredSet(m: Manifest)
    ensures RoleSet(RequiredRoles(m)) ==
      if m.sovereignEnabled then {Builder, Custodian, Sovereign} else {Builder, Custodian}
  {
    assert RequiredRoles(m) == if m.sovereignEnabled then [Builder, Custodian, Sovereign] else [Builder, Custodian];
  }

  lemma {:induction false} SharePair(shared: bool, r1: Role, r2: Role)
    requires r1 != r2
    ensures MayShare(shared, r1, r2) <==> shared && r1 in {Builder, Custodian} && r2 in {Builder, Custodian}
  {
  }

  lemma {:induction false} CoveredParties(m: Manifest, ctx: Context, a: map<Role, KeyId>)
    requires IsAssignment(m, Results(ctx, m, m.signatures), a) && a.Keys == RoleSet(RequiredRoles(m))
    ensures EveryPartySigned(m, ctx)
  {
    hide SignedAs, SpeaksFor, Results, MayShare;
    RequiredSet(m);
    assert Builder in a && Custodian in a && (m.sovereignEnabled ==> Sovereign in a);
    forall role | role in a
      ensures SignedAs(m, ctx, role, a[role])
    {
      SignedAsExact(m, ctx, role, a[role]);
    }
    SharePair(SharedOk(m), Builder, Custodian);
    SharePair(SharedOk(m), Builder, Sovereign);
    SharePair(SharedOk(m), Custodian, Sovereign);
    assert TwoParties(m, a[Builder], a[Custodian]);
    assert m.sovereignEnabled ==> SovereignApart(m, ctx, a[Builder], a[Custodian], a[Sovereign]);
  }

  lemma {:induction false} PartiesCovered(m: Manifest, ctx: Context)
    requires EveryPartySigned(m, ctx)
    ensures Covers(m, Results(ctx, m, m.signatures), RoleSet(RequiredRoles(m)))
  {
    hide SignedAs, SpeaksFor, Results, MayShare, RoleSet;
    RequiredSet(m);
    var b: KeyId, c: KeyId :|
      && SignedAs(m, ctx, Builder, b) && SignedAs(m, ctx, Custodian, c) && TwoParties(m, b, c)
      && (m.sovereignEnabled ==> exists s: KeyId :: SovereignApart(m, ctx, b, c, s));
    var a := map[Builder := b, Custodian := c];
    if m.sovereignEnabled {
      var s: KeyId :| SovereignApart(m, ctx, b, c, s);
      a := a[Sovereign := s];
    }
    forall role | role in a
      ensures a[role] in KeysFor(m, Results(ctx, m, m.signatures), role)
    {
      SignedAsExact(m, ctx, role, a[role]);
    }
    SharePair(SharedOk(m), Builder, Custodian);
    SharePair(SharedOk(m), Custodian, Builder);
    hide KeysFor;
    assert IsAssignment(m, Results(ctx, m, m.signatures), a);
  }

  /** The roles a manifest requires can be given keys of their own exactly when every party signed. */
  lemma {:induction false} PartiesExact(m: Manifest, ctx: Context)
    ensures Covers(m, Results(ctx, m, m.signatures), RoleSet(RequiredRoles(m))) <==> EveryPartySigned(m, ctx)
  {
    hide IsAssignment, EveryPartySigned, RoleSet;
    if Covers(m, Results(ctx, m, m.signatures), RoleSet(RequiredRoles(m))) {
      var a :| IsAssignment(m, Results(ctx, m, m.signatures), a) && a.Keys == RoleSet(RequiredRoles(m));
      CoveredParties(m, ctx, a);
    }
    if EveryPartySigned(m, ctx) {
      PartiesCovered(m, ctx);
    }
  }

  /** No key signs for the builder exactly when no block that counts does. */
  lemma {:induction false} BuilderKeys(m: Manifest, ctx: Context)
    ensures KeysFor(m, Results(ctx, m, m.signatures), Builder) == [] <==>
      forall k: KeyId :: !SignedAs(m, ctx, Builder, k)
  {
    hide SignedAs, SpeaksFor, Results, KeysFor;
    var keys := KeysFor(m, Results(ctx, m, m.signatures), Builder);
    forall k
      ensures SignedAs(m, ctx, Builder, k) <==> k in keys
    {
      SignedAsExact(m, ctx, Builder, k);
    }
    if keys != [] {
      assert keys[0] in keys;
      assert SignedAs(m, ctx, Builder, keys[0]);
    }
  }

  lemma {:induction false} ResultsAt(ctx: Context, m: Manifest, blocks: seq<Block>, i: nat)
    requires i < |blocks|
    ensures Results(ctx, m, blocks)[i] == ResultOf(ctx, m, blocks[i])
  {
    if i > 0 {
      ResultsAt(ctx, m, blocks[1..], i - 1);
    }
  }

  lemma {:induction false} ResultsSnoc(ctx: Context, m: Manifest, blocks: seq<Block>, i: nat)
    requires i < |blocks|
    ensures Results(ctx, m, blocks[..i + 1]) == Results(ctx, m, blocks[..i]) + [ResultOf(ctx, m, blocks[i])]
  {
    if i == 0 {
      assert blocks[..1][1..] == [] && blocks[..0] == [];
    } else {
      ResultsSnoc(ctx, m, blocks[1..], i - 1);
      assert blocks[..i + 1][1..] == blocks[1..][..i] && blocks[..i][1..] == blocks[1..][..i - 1];
    }
  }

  method CheckBlocks(m: Manifest, ctx: Context) returns (results: seq<SignatureResult>)
    ensures results == Results(ctx, m, m.signatures)
  {
    results := [];
    for i := 0 to |m.signatures|
      invariant results == Results(ctx, m, m.signatures[..i])
    {
      var sig := m.signatures[i];
      ResultsSnoc(ctx, m, m.signatures, i);
      var valid := false;
      if sig.keyId in ctx.keys {
        if ctx.keys[sig.keyId] == sig.algorithm {
          if sig.verifies {
            if RoleAuthorized(ctx, m, sig) {
              valid := true;
            }
          }
        }
      }
      results := results + [SignatureResult(sig.role, sig.signer, sig.keyId, valid)];
    }
    assert m.signatures[..|m.signatures|] == m.signatures;
  }

  ghost predicate Covers(m: Manifest, rs: seq<SignatureResult>, required: set<Role>) {
    exists a :: IsAssignment(m, rs, a) && a.Keys == required
  }

  /** Some assignment covers exactly these of the required roles, and none covers more of them. */
  ghost predicate LargestCovered(m: Manifest, rs: seq<SignatureResult>, required: set<Role>, best: set<Role>) {
    && best <= required && Covers(m, rs, best)
    && (forall s :: s <= required && Covers(m, rs, s) ==> |s| <= |best|)
  }

  /** A largest covered set is all of the required roles exactly when some assignment covers them all. */
  lemma {:induction false} CoverageExact(m: Manifest, rs: seq<SignatureResult>, required: set<Role>, best: set<Role>)
    requires LargestCovered(m, rs, required, best)
    ensures best == required <==> Covers(m, rs, required)
  {
    hide Covers;
    if Covers(m, rs, required) {
      CardinalityClosed(best, required);
    }
  }

  lemma {:induction false} CardinalityClosed(x: set<Role>, y: set<Role>)
    requires x <= y && |y| <= |x|
    ensures x == y
  {
    assert |y - x| == |y| - |x|;
  }

  lemma {:induction false} CoveredAreSpoken(m: Manifest, rs: seq<SignatureResult>, required: seq<Role>, s: set<Role>)
    requires Covers(m, rs, s) && forall r :: r in s ==> r in required
    ensures forall r :: r in s ==> r in Spoken(m, rs, required)
  {
    hide SpeaksFor;
    var a :| IsAssignment(m, rs, a) && a.Keys == s;
    forall r | r in s
      ensures KeysFor(m, rs, r) != []
    {
      assert r in a && a[r] in KeysFor(m, rs, r);
    }
  }

  /** Whatever an assignment covers, the search could have chosen. */
  lemma {:induction false} CoveredIsChoice(m: Manifest, rs: seq<SignatureResult>, required: seq<Role>, s: set<Role>)
    returns (c: Combo)
    requires DistinctRoles(required) && Covers(m, rs, s) && forall r :: r in s ==> r in required
    ensures var roles := Spoken(m, rs, required);
      && IsChoice(Candidates(m, rs, roles), c) && |c| == |roles| && !Clash(SharedOk(m), roles, c) && Count(c) == |s|
  {
    hide Candidates, SharedOk, IsAssignment, Clash, Count, IsChoice;
    var roles := Spoken(m, rs, required);
    CoveredAreSpoken(m, rs, required, s);
    var a :| IsAssignment(m, rs, a) && a.Keys == s;
    c := ComboOf(roles, a);
    AssignmentIsChoice(m, rs, roles, a);
    CountIsChosen(roles, c);
  }

  lemma {:induction false} AllValid(ctx: Context, m: Manifest, results: seq<SignatureResult>)
    requires results == Results(ctx, m, m.signatures)
    ensures (forall i :: 0 <= i < |results| ==> results[i].valid)
       <==> (forall i :: 0 <= i < |m.signatures| ==> BlockValid(ctx, m, m.signatures[i]))
  {
    hide BlockValid;
    forall i | 0 <= i < |results|
      ensures results[i].valid == BlockValid(ctx, m, m.signatures[i])
    {
      ResultsAt(ctx, m, m.signatures, i);
    }
  }

  /** What the search finds, said of assignments of valid keys to roles. */
  method DistinctlySigned(m: Manifest, results: seq<SignatureResult>, required: seq<Role>)
    returns (best: set<Role>)
    requires DistinctRoles(required) && required != [] && required[0] == Builder
    ensures LargestCovered(m, results, RoleSet(required), best)
    ensures KeysFor(m, results, Builder) != [] ==> Builder in best
  {
    hide KeysFor, Candidates, IsAssignment, Clash, Count, Product, SharedOk, Largest, FirstOfItsSize, IsChoice, Chosen;
    var roles := Spoken(m, results, required);
    var cands := Candidates(m, results, roles);
    assert forall i :: 0 <= i < |cands| ==> None in cands[i];
    ghost var at;
    best, at := RolesWithDistinctKeys(SharedOk(m), roles, cands);
    ghost var found := LargestHas(SharedOk(m), roles, cands, best);
    ghost var a := ChoiceIsAssignment(m, results, roles, found);
    forall s | s <= RoleSet(required) && Covers(m, results, s)
      ensures |s| <= |best|
    {
      var c := CoveredIsChoice(m, results, required, s);
      LargestBounds(SharedOk(m), roles, cands, best, c);
    }
    if KeysFor(m, results, Builder) != [] {
      assert roles[0] == Builder && cands[0] == WithNone(KeysFor(m, results, roles[0]));
      BuilderKept(SharedOk(m), roles, cands, best, at);
    }
  }

  method Without(required: seq<Role>, best: set<Role>) returns (missing: seq<Role>)
    ensures missing == [] <==> forall r :: r in required ==> r in best
    ensures forall r :: r in missing <==> r in required && r !in best
  {
    missing := [];
    for i := 0 to |required|
      invariant forall r :: r in missing <==> r in required[..i] && r !in best
    {
      assert required[..i + 1] == required[..i] + [required[i]];
      if required[i] !in best {
        missing := missing + [required[i]];
      }
    }
    assert required[..|required|] == required;
    assert missing != [] ==> missing[0] in missing;
  }

  lemma {:induction false} RequiredShape(m: Manifest)
    ensures RequiredRoles(m) != [] && RequiredRoles(m)[0] == Builder && DistinctRoles(RequiredRoles(m))
  {
  }

  /** A largest set the search may answer, within the required roles: all of them or not. */
  lemma {:induction false} SubsetOfRequired(m: Manifest, rs: seq<SignatureResult>, required: seq<Role>, best: set<Role>)
    requires LargestCovered(m, rs, RoleSet(required), best)
    ensures best == RoleSet(required) <==> forall r :: r in required ==> r in best
    ensures forall r :: r in best ==> r in required
  {
    hide Covers;
  }

  /** What the search answers, said of the blocks. */
  lemma {:induction false} SaidOfBlocks(m: Manifest, ctx: Context, best: set<Role>)
    requires LargestCovered(m, Results(ctx, m, m.signatures), RoleSet(RequiredRoles(m)), best)
    requires KeysFor(m, Results(ctx, m, m.signatures), Builder) != [] ==> Builder in best
    ensures (forall i :: 0 <= i < |m.signatures| ==> BlockValid(ctx, m, m.signatures[i])) <==> EveryBlockSound(m, ctx)
    ensures Covers(m, Results(ctx, m, m.signatures), RoleSet(RequiredRoles(m))) <==> EveryPartySigned(m, ctx)
    ensures Builder !in best <==> forall k: KeyId :: !SignedAs(m, ctx, Builder, k)
    ensures forall r :: r in RequiredRoles(m) <==> r in {Builder, Custodian} || (r == Sovereign && m.sovereignEnabled)
  {
    hide BlockValid, Sound, EveryPartySigned, KeysFor, Results, IsAssignment, SignedAs;
    PartiesExact(m, ctx);
    BuilderKeys(m, ctx);
    RequiredSet(m);
    forall i | 0 <= i < |m.signatures|
      ensures BlockValid(ctx, m, m.signatures[i]) <==> Sound(m, ctx, m.signatures[i])
    {
      SoundExact(m, ctx, m.signatures[i]);
    }
    CoveredAreSpoken(m, Results(ctx, m, m.signatures), RequiredRoles(m), best);
    assert forall r :: r in RequiredRoles(m) <==> r in RoleSet(RequiredRoles(m));
  }

  /**
   `missing` is what a largest covered set of required roles leaves out, and nothing exactly when
   all can be covered; a builder that has a valid key is never in it. The verdict is decided of
   the blocks alone: each one counts, and every party signed with a key of its own.
   */
  method VerifyManifest(m: Manifest, ctx: Context) returns (ok: bool, missing: seq<Role>)
    ensures ok <==> JointlySigned(m, ctx)
    ensures missing == [] <==> Covers(m, Results(ctx, m, m.signatures), RoleSet(RequiredRoles(m)))
    ensures exists best ::
      && LargestCovered(m, Results(ctx, m, m.signatures), RoleSet(RequiredRoles(m)), best)
      && forall r :: r in missing <==> r in RequiredRoles(m) && r !in best
    ensures ok <==> EveryBlockSound(m, ctx) && EveryPartySigned(m, ctx)
    ensures missing == [] <==> EveryPartySigned(m, ctx)
    ensures Builder in missing <==> forall k: KeyId :: !SignedAs(m, ctx, Builder, k)
    ensures forall r :: r in missing ==> r in {Builder, Custodian} || (r == Sovereign && m.sovereignEnabled)
  {
    hide Results, KeysFor, IsAssignment, BlockValid, Sound, EveryPartySigned;
    hide LargestCovered, RoleSet, RequiredRoles, EveryBlockSound;
    assert RequiredRoles(m)[0] == Builder && DistinctRoles(RequiredRoles(m)) by { RequiredShape(m); }
    var results := CheckBlocks(m, ctx);
    var required := RequiredRoles(m);
    var best := DistinctlySigned(m, results, required);
    missing := Without(required, best);
    AllValid(ctx, m, results);
    ghost var all := RoleSet(required);
    CoverageExact(m, results, all, best);
    assert missing == [] <==> best == all by { SubsetOfRequired(m, results, required, best); }
    SaidOfBlocks(m, ctx, best);
    ok := missing == [] && forall i :: 0 <= i < |results| ==> results[i].valid;
  }
}
