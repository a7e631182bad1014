/**
 The Cognito SRP-6a client: its shared secret is the server's (section 2.6 of RFC 5054), so a server that knows
 the verifier accepts its answer. Hashing, key derivation and signing are arbitrary functions here.
 */
module Srp {
  import opened Prelude

  function Pow(b: int, e: nat): int {
    if e == 0 then 1 else b * Pow(b, e - 1)
  }

  /** `f` lists the powers of `b`: one first, each next one `b` times the one before. */
  ghost predicate Powers(f: nat -> int, b: int) {
    f(0) == 1 && forall m: nat :: f(m + 1) == b * f(m)
  }

  /** That determines `Pow`: whatever lists the powers of `b` agrees with it. */
  lemma {:induction false} PowIsPower(f: nat -> int, b: int, e: nat)
    requires Powers(f, b)
    ensures Pow(b, e) == f(e)
  {
    if e > 0 {
      PowIsPower(f, b, e - 1);
      assert f(e - 1 + 1) == b * f(e - 1);
    }
  }

  /** There is such a list, and the first powers are one and the base itself. */
  lemma {:induction false} PowersExist(b: int)
    ensures exists f: nat -> int :: Powers(f, b) && f(1) == b
  {
    var f: nat -> int := (e: nat) => Pow(b, e);
    forall m: nat ensures f(m + 1) == b * f(m) {
      assert f(m + 1) == Pow(b, m + 1) && f(m) == Pow(b, m);
    }
    assert f(0) == 1 && Powers(f, b);
    assert f(1) == f(0 + 1) == b * f(0) == b;
  }

  /** Python's `pow(b, e, n)`: the result lies in `[0, n)` also for a negative base. */
  function ModPow(b: int, e: nat, n: nat): (r: nat)
    requires n > 0
    ensures r < n
  {
    Pow(b, e) % n
  }

  /** `a` and `b` have the same remainder. */
  ghost predicate Cong(a: int, b: int, n: nat)
    requires n > 0
  {
    exists k :: a == b + k * n
  }

  lemma CongIntro(a: int, b: int, n: nat, k: int)
    requires n > 0 && a == b + k * n
    ensures Cong(a, b, n)
  {
  }

  lemma ModCong(a: int, n: nat)
    requires n > 0
    ensures Cong(a % n, a, n)
  {
    CongIntro(a % n, a, n, -(a / n));
  }

  lemma MultipleSmall(r: int, s: int, k: int, n: nat)
    requires n > 0 && 0 <= r < n && 0 <= s < n && r == s + k * n
    ensures r == s
  {
    assert k >= 1 ==> k * n >= n;
    assert k <= -1 ==> k * n <= -1 * n;
  }

  lemma CongMod(a: int, b: int, n: nat)
    requires n > 0 && Cong(a, b, n)
    ensures a % n == b % n
  {
    var k :| a == b + k * n;
    assert a == (a / n) * n + a % n && b == (b / n) * n + b % n;
    var d := k + b / n - a / n;
    assert d * n == k * n + (b / n) * n - (a / n) * n;
    MultipleSmall(a % n, b % n, d, n);
  }

  lemma CongTrans(a: int, b: int, c: int, n: nat)
    requires n > 0 && Cong(a, b, n) && Cong(b, c, n)
    ensures Cong(a, c, n)
  {
    var j :| a == b + j * n;
    var k :| b == c + k * n;
    assert (j + k) * n == j * n + k * n;
    CongIntro(a, c, n, j + k);
  }

  lemma CongSym(a: int, b: int, n: nat)
    requires n > 0 && Cong(a, b, n)
    ensures Cong(b, a, n)
  {
    var k :| a == b + k * n;
    assert (-k) * n == -(k * n);
    CongIntro(b, a, n, -k);
  }

  lemma Distribute(b: int, m: int, c: int, n: int)
    ensures (b + m * n) * c == b * c + (m * c) * n
  {
    assert (b + m * n) * c == b * c + (m * n) * c;
    assert (m * n) * c == m * (n * c) == m * (c * n) == (m * c) * n;
  }

  lemma CongScale(a: int, b: int, c: int, n: nat)
    requires n > 0 && Cong(a, b, n)
    ensures Cong(a * c, b * c, n)
  {
    var m :| a == b + m * n;
    Distribute(b, m, c, n);
    CongIntro(a * c, b * c, n, m * c);
  }

  lemma CongMul(a: int, b: int, c: int, d: int, n: nat)
    requires n > 0 && Cong(a, b, n) && Cong(c, d, n)
    ensures Cong(a * c, b * d, n)
  {
    CongScale(a, b, c, n);
    CongScale(c, d, b, n);
    assert c * b == b * c && d * b == b * d;
    CongTrans(a * c, b * c, b * d, n);
  }

  lemma CongSub(a: int, b: int, c: int, d: int, n: nat)
    requires n > 0 && Cong(a, b, n) && Cong(c, d, n)
    ensures Cong(a - c, b - d, n)
  {
    var j :| a == b + j * n;
    var k :| c == d + k * n;
    assert (j - k) * n == j * n - k * n;
    CongIntro(a - c, b - d, n, j - k);
  }

  lemma {:induction false} CongPow(a: int, b: int, e: nat, n: nat)
    requires n > 0 && Cong(a, b, n)
    ensures Cong(Pow(a, e), Pow(b, e), n)
  {
    if e == 0 {
      CongIntro(1, 1, n, 0);
    } else {
      CongPow(a, b, e - 1, n);
      CongMul(a, b, Pow(a, e - 1), Pow(b, e - 1), n);
    }
  }

  lemma {:induction false} PowAdd(b: int, m: nat, e: nat)
    ensures Pow(b, m + e) == Pow(b, m) * Pow(b, e)
  {
    if m > 0 {
      PowAdd(b, m - 1, e);
      assert b * (Pow(b, m - 1) * Pow(b, e)) == (b * Pow(b, m - 1)) * Pow(b, e);
    }
  }

  lemma {:induction false} PowPow(b: int, m: nat, e: nat)
    ensures m * e >= 0
    ensures Pow(Pow(b, m), e) == Pow(b, m * e)
  {
    if e > 0 {
      PowPow(b, m, e - 1);
      assert m * e == m + m * (e - 1);
      PowAdd(b, m, m * (e - 1));
    }
  }

  /** The texts of a PASSWORD_VERIFIER challenge, any of which may be missing. */
  datatype Challenge = Challenge(
    username: Option<string>,
    userId: Option<string>,
    salt: Option<string>,
    secretB: Option<string>,
    secretBlock: Option<string>)

  datatype Response = Response(
    username: string,
    secretBlock: string,
    signature: string,
    timestamp: string,
    secretHash: Option<string>)

  datatype Error = EphemeralRejected | MalformedChallenge | ServerValueRejected | MixingRejected

  /** What both sides compute outside the group. */
  datatype Functions = Functions(
    hexValue: string -> int,
    mix: (nat, string) -> nat,                                // of the two public values
    privateKey: (string, string, string) -> nat,              // of salt, user and password
    deriveKey: (nat, nat) -> string,                          // of the secret and the mixing value
    sign: (string, string, string, string, Option<string>) -> string,
    secretHash: string -> string)

  /** Given, and not empty. */
  predicate Present(v: Option<string>): (r: bool)
    ensures r <==> v !in [None, Some("")]
  {
    assert v in [None, Some("")] <==> v == None || v == Some("");
    v.Some? && v.value != ""
  }

  function Or(v: Option<string>, default: string): string {
    if v.Some? then v.value else default
  }

  predicate Complete(c: Challenge) { Present(c.salt) && Present(c.secretB) && Present(c.secretBlock) }

  /** The server's side: its public value for verifier `v` and secret `b`. */
  function ServerPublic(g: int, k: int, v: int, b: nat, n: nat): int
    requires n > 0
  {
    (k * v + ModPow(g, b, n)) % n
  }

  function ServerSecret(bigA: int, v: int, u: nat, b: nat, n: nat): nat
    requires n > 0
  {
    ModPow(bigA * ModPow(v, u, n), b, n)
  }

  /** The signature that a server with verifier `v` and secret `b` expects. */
  function ExpectedSignature(f: Functions, bigA: nat, v: int, u: nat, b: nat, n: nat, name: string, block: string,
                             timestamp: string, secretHash: Option<string>): string
    requires n > 0
  {
    f.sign(f.deriveKey(ServerSecret(bigA, v, u, b, n), u), name, block, timestamp, secretHash)
  }

  /** One client session. */
  class CognitoSrp {
    const n: nat
    const g: int
    const k: int
    const a: nat
    const f: Functions
    const username: string
    const password: string
    const hasClientSecret: bool
    var bigA: nat

    constructor (n: nat, g: int, k: int, a: nat, f: Functions, username: string, password: string, hasClientSecret: bool)
      requires n > 0
      ensures this.n == n && this.g == g && this.k == k && this.a == a
      ensures this.f == f && this.username == username && this.password == password && this.hasClientSecret == hasClientSecret
      ensures bigA == ModPow(g, a, n)
      ensures forall p: nat -> int :: Powers(p, g) ==> bigA == p(a) % n
    {
      this.n, this.g, this.k, this.a := n, g, k, a;
      this.f, this.username, this.password, this.hasClientSecret := f, username, password, hasClientSecret;
      bigA := ModPow(g, a, n);
      forall p: nat -> int | Powers(p, g) ensures ModPow(g, a, n) == p(a) % n {
        PowIsPower(p, g, a);
      }
    }

    /** The constructor's check of its own public value. */
    method EphemeralCheck() returns (e: Option<Error>)
      requires n > 0 && bigA == ModPow(g, a, n)
      ensures e.Some? <==> Pow(g, a) % n == 0
      ensures forall p: nat -> int :: Powers(p, g) ==> (e.Some? <==> p(a) % n == 0)
    {
      forall p: nat -> int | Powers(p, g) ensures p(a) == Pow(g, a) {
        PowIsPower(p, g, a);
      }
      return if bigA % n == 0 then Some(EphemeralRejected) else None;
    }

    /** The client's private key for a challenge: a user id the server sent goes before a name it sent, and that
        before the client's own. */
    function PrivateKey(c: Challenge): (x: nat)
      requires Complete(c)
      ensures c.userId.Some? ==> x == f.privateKey(c.salt.value, c.userId.value, password)
      ensures c.userId.None? && c.username.Some? ==> x == f.privateKey(c.salt.value, c.username.value, password)
      ensures c.userId.None? && c.username.None? ==> x == f.privateKey(c.salt.value, username, password)
    {
      f.privateKey(c.salt.value, Or(c.userId, Or(c.username, username)), password)
    }

    /** Incomplete challenges and unsafe server values are refused; and whatever its secret, a server that made its
        public value from the verifier of this password expects just the signature in the answer. */
    method Respond(c: Challenge, timestamp: string) returns (r: Result<Response, Error>)
      requires n > 0 && bigA == ModPow(g, a, n)
      ensures r == Err(MalformedChallenge) <==>
                c.salt in [None, Some("")] || c.secretB in [None, Some("")] || c.secretBlock in [None, Some("")]
      ensures Complete(c) <==> r != Err(MalformedChallenge)
      ensures r == Err(ServerValueRejected) <==> Complete(c) && f.hexValue(c.secretB.value) % n == 0
      ensures r == Err(MixingRejected) <==>
                Complete(c) && f.hexValue(c.secretB.value) % n != 0 && f.mix(bigA, c.secretB.value) == 0
      ensures r.Err? ==> r.error != EphemeralRejected
      ensures r.Ok? ==>
                var out, name := r.value, if c.username.Some? then c.username.value else username;
                && out.username == name && out.secretBlock == c.secretBlock.value && out.timestamp == timestamp
                && out.secretHash == (if hasClientSecret then Some(f.secretHash(name)) else None)
                && forall b: nat :: f.hexValue(c.secretB.value) == ServerPublic(g, k, ModPow(g, PrivateKey(c), n), b, n) ==>
                     out.signature == ExpectedSignature(f, bigA, ModPow(g, PrivateKey(c), n), f.mix(bigA, c.secretB.value), b, n,
                                                        name, out.secretBlock, timestamp, out.secretHash)
    {
      var name := Or(c.username, username);
      if !Complete(c) {
        return Err(MalformedChallenge);
      }
      var bigB := f.hexValue(c.secretB.value);
      if bigB % n == 0 {
        return Err(ServerValueRejected);
      }
      var u := f.mix(bigA, c.secretB.value);
      if u == 0 {
        return Err(MixingRejected);
      }
      var x := f.privateKey(c.salt.value, Or(c.userId, name), password);
      var gx := ModPow(g, x, n);
      var secret := ModPow(bigB - k * gx, a + u * x, n);
      var key := f.deriveKey(secret, u);
      var secretHash := if hasClientSecret then Some(f.secretHash(name)) else None;
      var signature := f.sign(key, name, c.secretBlock.value, timestamp, secretHash);
      forall b: nat | bigB == ServerPublic(g, k, gx, b, n)
        ensures secret == ServerSecret(bigA, gx, u, b, n)
      {
        SecretsAgree(g, k, a, b, x, u, n);
      }
      return Ok(Response(name, c.secretBlock.value, signature, timestamp, secretHash));
    }
  }

  lemma {:induction false} ClientBase(g: int, k: int, b: nat, x: nat, n: nat)
    requires n > 0
    ensures var gx := ModPow(g, x, n);
            Cong(ServerPublic(g, k, gx, b, n) - k * gx, Pow(g, b), n)
  {
    var gx := ModPow(g, x, n);
    var bigB := ServerPublic(g, k, gx, b, n);
    var sum := k * gx + ModPow(g, b, n);
    ModCong(sum, n);
    ModCong(Pow(g, b), n);
    CongIntro(k * gx, k * gx, n, 0);
    CongSub(bigB, sum, k * gx, k * gx, n);
    CongTrans(bigB - k * gx, ModPow(g, b, n), Pow(g, b), n);
  }

  lemma {:induction false} ServerBase(g: int, a: nat, x: nat, u: nat, n: nat)
    requires n > 0
    ensures u * x >= 0
    ensures Cong(ModPow(g, a, n) * ModPow(ModPow(g, x, n), u, n), Pow(g, a + u * x), n)
  {
    var v := ModPow(g, x, n);
    ModCong(Pow(g, a), n);
    ModCong(Pow(v, u), n);
    ModCong(Pow(g, x), n);
    CongPow(v, Pow(g, x), u, n);
    CongTrans(ModPow(v, u, n), Pow(v, u), Pow(Pow(g, x), u), n);
    PowPow(g, x, u);
    assert x * u == u * x;
    CongMul(ModPow(g, a, n), Pow(g, a), ModPow(v, u, n), Pow(g, u * x), n);
    PowAdd(g, a, u * x);
  }

  /** Client and server agree for every modulus and all secrets, whether or not the client's base is negative. */
  lemma {:induction false} SecretsAgree(g: int, k: int, a: nat, b: nat, x: nat, u: nat, n: nat)
    requires n > 0
    ensures u * x >= 0
    ensures var v := ModPow(g, x, n);
            var bigB := ServerPublic(g, k, v, b, n);
            ModPow(bigB - k * v, a + u * x, n) == ServerSecret(ModPow(g, a, n), v, u, b, n)
  {
    var v := ModPow(g, x, n);
    var base := ServerPublic(g, k, v, b, n) - k * v;
    ServerBase(g, a, x, u, n);
    var e: nat := a + u * x;
    var product := ModPow(g, a, n) * ModPow(v, u, n);
    ClientBase(g, k, b, x, n);
    CongPow(base, Pow(g, b), e, n);
    PowPow(g, b, e);
    CongPow(product, Pow(g, e), b, n);
    PowPow(g, e, b);
    assert b * e == e * b;
    CongSym(Pow(product, b), Pow(g, e * b), n);
    CongTrans(Pow(base, e), Pow(g, b * e), Pow(product, b), n);
    CongMod(Pow(base, e), Pow(product, b), n);
  }

  lemma {:induction false} ServerSecretIsPower(g: int, a: nat, b: nat, x: nat, u: nat, n: nat)
    requires n > 0
    ensures u * x >= 0 && b * (a + u * x) >= 0
    ensures ServerSecret(ModPow(g, a, n), ModPow(g, x, n), u, b, n) == Pow(g, b * (a + u * x)) % n
  {
    ServerBase(g, a, x, u, n);
    var e: nat := a + u * x;
    var product := ModPow(g, a, n) * ModPow(ModPow(g, x, n), u, n);
    CongPow(product, Pow(g, e), b, n);
    PowPow(g, e, b);
    assert b * e == e * b;
    CongMod(Pow(product, b), Pow(g, b * e), n);
  }

  /** The secret that both sides hold is the generator to the power b(a + ux), modulo n: it depends on the password
      through x, and on both ephemeral secrets. */
  lemma {:induction false} SharedSecretIsPower(f: nat -> int, g: int, k: int, a: nat, b: nat, x: nat, u: nat, n: nat)
    requires n > 0 && Powers(f, g)
    ensures u * x >= 0 && b * (a + u * x) >= 0
    ensures var v := f(x) % n;
            var bigB := (k * v + f(b) % n) % n;
            && ModPow(bigB - k * v, a + u * x, n) == f(b * (a + u * x)) % n
            && ServerSecret(f(a) % n, v, u, b, n) == f(b * (a + u * x)) % n
  {
    SecretsAgree(g, k, a, b, x, u, n);
    ServerSecretIsPower(g, a, b, x, u, n);
    PowIsPower(f, g, x);
    PowIsPower(f, g, b);
    PowIsPower(f, g, a);
    PowIsPower(f, g, b * (a + u * x));
  }
}
