/**
 * Signed identity tokens (JSON Web Tokens, RFC 7519), modelled symbolically.
 * A token is its claims, its issue and expiry times in whole seconds, and the
 * key it was signed with; the key stands for the signature, which only a
 * holder of that key can produce. Tokens travel as strings: five
 * dot-separated lower-case hexadecimal segments (id, username, issued-at,
 * expiry, signing key), a stand-in for the compact serialization that keeps
 * its two properties the server relies on: it contains no space and it
 * decodes to exactly one token.
 */
module Jwt {
  import opened Wrappers
  import Text
  import Hex

  /** The identity the server signs: the user's id and username. */
  datatype Claims = Claims(id: nat, username: string)

  /** A signing secret: the server's access-token secret, its refresh-token
      secret, or a secret the server does not hold. The server's two secrets
      come from the environment, with distinct fallbacks; the model keeps
      them distinct. */
  datatype Key = AccessSecret | RefreshSecret | OtherSecret(n: nat)

  datatype Token = Token(claims: Claims, iat: nat, exp: nat, key: Key)

  /** `expiresIn: "1y"`: 365.25 days in seconds. */
  const OneYear: nat := 31_557_600
  /** `expiresIn: "7d"` in seconds. */
  const SevenDays: nat := 604_800

  /** Signs `claims` with `key` at time `now`, valid for `lifetime` seconds. */
  function Sign(claims: Claims, key: Key, now: nat, lifetime: nat): (t: Token)
    ensures t.claims == claims && t.key == key
    ensures t.exp - t.iat == lifetime && t.iat == now
  {
    Token(claims, now, now + lifetime, key)
  }

  /** The number the signature segment carries for each key. */
  function KeyCode(k: Key): nat {
    match k
    case AccessSecret => 0
    case RefreshSecret => 1
    case OtherSecret(n) => n + 2
  }

  function KeyOfCode(c: nat): (k: Key)
    ensures KeyCode(k) == c
  {
    if c == 0 then AccessSecret else if c == 1 then RefreshSecret else OtherSecret(c - 2)
  }

  function Segments(t: Token): seq<string> {
    [Hex.FromNat(t.claims.id), Hex.FromString(t.claims.username),
     Hex.FromNat(t.iat), Hex.FromNat(t.exp), Hex.FromNat(KeyCode(t.key))]
  }

  /** The wire form of a token. */
  function Encode(t: Token): (s: string)
    ensures |s| > 0
    ensures ' ' !in s
  {
    var segs := Segments(t);
    assert forall i :: 0 <= i < |segs| ==> Hex.AllDigits(segs[i]);
    Text.JoinAvoids(segs, '.', ' ');
    Text.Join(segs, '.')
  }

  /** Reads a token back from its wire form; malformed strings are refused. */
  function Decode(s: string): (r: Option<Token>)
  {
    var f := Text.Split(s, '.');
    if |f| != 5 || Hex.ToNat(f[0]).None? || Hex.ToString(f[1]).None? || Hex.ToNat(f[2]).None?
       || Hex.ToNat(f[3]).None? || Hex.ToNat(f[4]).None?
    then None
    else
      Some(Token(Claims(Hex.ToNat(f[0]).value, Hex.ToString(f[1]).value),
                 Hex.ToNat(f[2]).value, Hex.ToNat(f[3]).value, KeyOfCode(Hex.ToNat(f[4]).value)))
  }

  /** Decoding an encoded token gives the token back. */
  lemma DecodeEncode(t: Token)
    ensures Decode(Encode(t)) == Some(t)
  {
    var segs := Segments(t);
    forall i | 0 <= i < |segs|
      ensures '.' !in segs[i]
    {
      Hex.DigitsAvoid(segs[i], '.');
    }
    Text.SplitJoin(segs, '.');
    Hex.ToNatFromNat(t.claims.id);
    Hex.ToNatFromNat(t.iat);
    Hex.ToNatFromNat(t.exp);
    Hex.ToStringFromString(t.claims.username);
    Hex.ToNatFromNat(KeyCode(t.key));
  }

  lemma DecodeEncodings(s: string)
    ensures forall t :: s == Encode(t) ==> Decode(s) == Some(t)
  {
    forall t | s == Encode(t)
      ensures Decode(s) == Some(t)
    {
      DecodeEncode(t);
    }
  }

  /** Every string the decoder accepts is the encoding of the token it yields:
      two different strings never decode to the same token. */
  lemma EncodeDecode(s: string)
    requires Decode(s).Some?
    ensures Encode(Decode(s).value) == s
  {
    var f := Text.Split(s, '.');
    var t := Decode(s).value;
    Hex.FromNatToNat(f[0]);
    Hex.FromStringToString(f[1]);
    Hex.FromNatToNat(f[2]);
    Hex.FromNatToNat(f[3]);
    Hex.FromNatToNat(f[4]);
    assert Segments(t) == f;
    Text.JoinSplit(s, '.');
  }

  /** `jwt.verify`: the token a string carries when it is well formed, signed
      with `key` and not yet expired at `now`. */
  function Verify(s: string, key: Key, now: nat): (r: Option<Token>)
    ensures r.Some? ==> s == Encode(r.value) && r.value.key == key && now < r.value.exp
    ensures forall t :: s == Encode(t) && t.key == key && now < t.exp ==> r == Some(t)
  {
    DecodeEncodings(s);
    match Decode(s)
    case None => None
    case Some(t) =>
      EncodeDecode(s);
      if t.key == key && now < t.exp then Some(t) else None
  }

  /** A token issued with `key` verifies under `key'` at `now` exactly when the
      keys agree and its lifetime has not run out. */
  lemma VerifyIssued(claims: Claims, key: Key, issued: nat, lifetime: nat, key': Key, now: nat)
    ensures var t := Sign(claims, key, issued, lifetime);
            Verify(Encode(t), key', now) == if key' == key && now < issued + lifetime then Some(t) else None
  {
    DecodeEncode(Sign(claims, key, issued, lifetime));
  }
}
