/** `ActiveComms` (mc/src/connection/comms.rs): a client's stream, first
    in plaintext and, once the login phase has agreed a shared secret,
    through an AES-128-CFB8 decryptor and encryptor keyed by it. The
    cipher itself is not modelled: bytes that go through it are tagged
    with the key and IV they go through. No code of the core calls
    `upgrade`, so this module stands on its own and is not wired to the
    login phase. */
module Comms {
  import opened Base

  /** The two variants of `ActiveComms`. Both cipher halves are built
      with the shared secret as key and as IV. */
  datatype Mode = Plaintext | Encrypted(key: seq<byte>, iv: seq<byte>)

  /** Bytes as they crossed the stream: as they are, or through the
      cipher with the given key and IV. */
  datatype Segment = Clear(bytes: seq<byte>) | Ciphered(key: seq<byte>, iv: seq<byte>, bytes: seq<byte>)

  /** Whether what `upgrade` calls succeeds: the two `try_clone`s of the
      stream and the construction of the decryptor and of the encryptor. */
  datatype Collaborators = Collaborators(cloneReadOk: bool, cloneWriteOk: bool, decryptorOk: bool, encryptorOk: bool)

  /** The segment `bytes` becomes in mode `m`. */
  function Through(m: Mode, bytes: seq<byte>): (s: Segment)
    ensures s.bytes == bytes
    ensures s.Clear? <==> m.Plaintext?
    ensures m.Encrypted? ==> s.key == m.key && s.iv == m.iv
  {
    match m
    case Plaintext => Clear(bytes)
    case Encrypted(key, iv) => Ciphered(key, iv, bytes)
  }

  /** `upgrade` on a mode: a plaintext stream becomes encrypted with the
      secret when every step succeeds; a failed step leaves it plaintext,
      a failed clone as `Io` and a failed cipher as `OpenSsl`. An
      encrypted stream is left as it is. */
  function Upgraded(m: Mode, secret: seq<byte>, co: Collaborators): (r: (Result<()>, Mode))
    ensures m.Encrypted? ==> r == (Ok(()), m)
    ensures m.Plaintext? ==>
      (r.0.Ok? <==> co.cloneReadOk && co.cloneWriteOk && co.decryptorOk && co.encryptorOk)
    ensures r.0.Ok? && m.Plaintext? ==> r.1 == Encrypted(secret, secret)
    ensures r.0.Err? ==> r.1 == m == Plaintext
    ensures r.0.Err? ==> r.0.error == if co.cloneReadOk && co.cloneWriteOk then OpenSsl else Io
  {
    match m
    case Encrypted(_, _) => (Ok(()), m)
    case Plaintext =>
      if !co.cloneReadOk || !co.cloneWriteOk then (Err(Io), m)
      else if !co.decryptorOk || !co.encryptorOk then (Err(OpenSsl), m)
      else (Ok(()), Encrypted(secret, secret))
  }

  /** Upgrading twice changes nothing the first upgrade did not: the
      second secret is ignored. */
  lemma UpgradeIdempotent(m: Mode, s1: seq<byte>, s2: seq<byte>, co1: Collaborators, co2: Collaborators)
    requires Upgraded(m, s1, co1).0.Ok?
    ensures Upgraded(Upgraded(m, s1, co1).1, s2, co2) == (Ok(()), Upgraded(m, s1, co1).1)
    ensures Upgraded(m, s1, co1).1 == if m.Plaintext? then Encrypted(s1, s1) else m
  {
  }

  class ActiveComms {
    var mode: Mode
    /** What the client has sent and not yet been read. */
    var incoming: seq<byte>
    /** What has been written to the client, in order. */
    var outgoing: seq<Segment>

    /** `ActiveComms::new`: plaintext over the stream. */
    constructor(input: seq<byte>)
      ensures mode == Plaintext && incoming == input && outgoing == []
    {
      mode := Plaintext;
      incoming := input;
      outgoing := [];
    }

    /** `read`: up to `n` bytes, from the stream or through the
        decryptor; none at the end of the stream. */
    method Read(n: nat) returns (s: Segment)
      modifies this
      ensures var k := if n < |old(incoming)| then n else |old(incoming)|;
        && s == Through(mode, old(incoming)[..k])
        && incoming == old(incoming)[k..]
      ensures old(incoming) == s.bytes + incoming
      ensures mode == old(mode) && outgoing == old(outgoing)
    {
      var k := if n < |incoming| then n else |incoming|;
      match mode {
        case Plaintext => s := Clear(incoming[..k]);
        case Encrypted(key, iv) => s := Ciphered(key, iv, incoming[..k]);
      }
      incoming := incoming[k..];
    }

    /** `write`: the whole buffer, to the stream or through the
        encryptor; `ok` says whether the stream accepts it. */
    method Write(buf: seq<byte>, ok: bool) returns (r: Result<nat>)
      modifies this
      ensures ok ==> r == Ok(|buf|) && outgoing == old(outgoing) + [Through(mode, buf)]
      ensures !ok ==> r == Err(Io) && outgoing == old(outgoing)
      ensures mode == old(mode) && incoming == old(incoming)
    {
      if !ok {
        return Err(Io);
      }
      match mode {
        case Plaintext => outgoing := outgoing + [Clear(buf)];
        case Encrypted(key, iv) => outgoing := outgoing + [Ciphered(key, iv, buf)];
      }
      r := Ok(|buf|);
    }

    /** `upgrade`. */
    method Upgrade(secret: seq<byte>, co: Collaborators) returns (r: Result<()>)
      modifies this
      ensures (r, mode) == Upgraded(old(mode), secret, co)
      ensures incoming == old(incoming) && outgoing == old(outgoing)
    {
      if mode.Plaintext? {
        if !co.cloneReadOk || !co.cloneWriteOk {
          return Err(Io);
        }
        if !co.decryptorOk || !co.encryptorOk {
          return Err(OpenSsl);
        }
        mode := Encrypted(secret, secret);
      }
      r := Ok(());
    }
  }

  /** After a successful upgrade with `secret`, everything written goes
      through the cipher keyed by it, and a later upgrade keeps it so. */
  method WriteAfterUpgrade(c: ActiveComms, secret: seq<byte>, buf: seq<byte>, co: Collaborators, later: seq<byte>)
    returns (r: Result<()>)
    modifies c
    requires c.mode.Plaintext?
    ensures r.Ok? ==> c.mode == Encrypted(secret, secret)
    ensures r.Ok? ==> c.outgoing == old(c.outgoing) + [Ciphered(secret, secret, buf)]
    ensures r.Err? ==> c.mode == Plaintext && c.outgoing == old(c.outgoing)
  {
    r := c.Upgrade(secret, co);
    if r.Err? {
      return;
    }
    var _ := c.Upgrade(later, co);
    var _ := c.Write(buf, true);
  }
}
