/**
 A user's password and key pair.  The private key is stored encrypted under a key derived from
 e-mail and password; it is encrypted anew when the password changes and recovered from backups
 when the password was changed without knowing the old one.

 Encryption is ideal: a ciphertext opens with the key that sealed it and with no other.
 */
module UserKeys {
  import opened Wrappers

  type Secret = nat
  type Public = nat

  /** The key that password hashing derives; different e-mails or passwords give different keys. */
  datatype EncryptionKey = EncryptionKey(email: string, password: string)

  datatype Ciphertext = Sealed(key: EncryptionKey, secret: Secret)

  datatype KeyPair = KeyPair(pub: Public, secret: Option<Secret>)

  /** Deriving a public key, and the short hash by which passwords are compared. */
  datatype Crypto = Crypto(publicOf: Secret -> Public, hashOf: EncryptionKey -> nat)

  /** A record of the table of users. A password hash of zero means that none is set. */
  datatype Record = Record(
    id: nat, email: string, passwordHash: nat, pub: Option<Public>, priv: Option<Ciphertext>)

  /** The stored record. */
  class Row {
    var record: Record

    constructor (record: Record)
      ensures this.record == record
    {
      this.record := record;
    }
  }

  function FullPair(crypto: Crypto, k: Secret): KeyPair {
    KeyPair(crypto.publicOf(k), Some(k))
  }

  /** The record holds k, sealed under the password key p, with its public key. */
  predicate Keeps(crypto: Crypto, r: Record, p: EncryptionKey, k: Secret) {
    && r.passwordHash == crypto.hashOf(p)
    && r.pub == Some(crypto.publicOf(k))
    && r.priv == Some(Sealed(p, k))
  }

  class User {
    const crypto: Crypto
    const row: Row
    var model: Record                     // the record in memory
    var password: Option<EncryptionKey>   // mPassword
    var keyPair: Option<KeyPair>          // mGradidoKeyPair
    var canDecrypt: bool                  // mCanDecryptPrivateKey

    /** A held pair is a pair, and its public key is the record's. */
    ghost predicate PairMatches()
      reads this
    {
      keyPair.Some? ==>
        && model.pub == Some(keyPair.value.pub)
        && (keyPair.value.secret.Some? ==> keyPair.value == FullPair(crypto, keyPair.value.secret.value))
    }

    /** The flag promises that the ciphertext in memory opens, under the current password, to the held pair. */
    ghost predicate FlagTrue()
      reads this
    {
      canDecrypt ==>
        && password.Some? && model.priv.Some? && model.priv.value.key == password.value
        && keyPair == Some(FullPair(crypto, model.priv.value.secret))
    }

    ghost predicate Valid()
      reads this
    {
      PairMatches() && FlagTrue()
    }

    ghost predicate InSync()
      reads this, row
    {
      model == row.record
    }

    /** Logged in with password key p; memory and row hold k, and so does the pair if it is complete. */
    ghost predicate Owns(p: EncryptionKey, k: Secret)
      reads this, row
    {
      && Valid() && InSync() && model.id != 0
      && password == Some(p) && p.email == model.email
      && Keeps(crypto, model, p, k)
      && (keyPair.Some? && keyPair.value.secret.Some? ==> keyPair.value.secret.value == k)
    }

    /** A user object loaded from the table. */
    constructor (crypto: Crypto, row: Row)
      ensures Valid() && InSync() && this.crypto == crypto && this.row == row
      ensures password.None? && keyPair.None? && !canDecrypt
    {
      this.crypto, this.row, this.model := crypto, row, row.record;
      password, keyPair, canDecrypt := None, None, false;
    }

    // ---------------------------------------------------------------- record updates

    method UpdatePublicKey() returns (rows: nat)
      modifies row
      ensures rows == if model.pub.None? || model.id == 0 then 0 else 1
      ensures row.record == if rows == 0 then old(row.record) else old(row.record).(pub := model.pub)
    {
      if model.pub.None? || model.id == 0 {
        return 0;
      }
      row.record := row.record.(pub := model.pub);
      rows := 1;
    }

    method UpdatePublicKeyAndPrivateKey() returns (rows: nat)
      modifies row
      ensures rows == if model.priv.None? || model.pub.None? || model.id == 0 then 0 else 1
      ensures row.record == if rows == 0 then old(row.record)
                            else old(row.record).(pub := model.pub, priv := model.priv)
    {
      if model.priv.None? || model.pub.None? || model.id == 0 {
        return 0;
      }
      row.record := row.record.(pub := model.pub, priv := model.priv);
      rows := 1;
    }

    method UpdatePrivateKey()
      modifies row
      ensures row.record == if model.priv.None? || model.id == 0 then old(row.record)
                            else old(row.record).(priv := model.priv)
    {
      if model.priv.Some? && model.id != 0 {
        row.record := row.record.(priv := model.priv);
      }
    }

    method UpdatePrivateKeyAndPasswordHash() returns (rows: nat)
      modifies row
      ensures rows == if model.priv.None? || model.passwordHash == 0 || model.id == 0 then 0 else 1
      ensures row.record == if rows == 0 then old(row.record)
                            else old(row.record).(passwordHash := model.passwordHash, priv := model.priv)
    {
      if model.priv.None? || model.passwordHash == 0 || model.id == 0 {
        return 0;
      }
      row.record := row.record.(passwordHash := model.passwordHash, priv := model.priv);
      rows := 1;
    }

    // ---------------------------------------------------------------- login

    /**
     1: logged in; 2: already logged in; 0: wrong password; -1: the stored keys do not match;
     -2: the private key does not open; -3: a key creation for this e-mail is running.
     */
    method Login(pass: string, creationRunning: bool) returns (result: int)
      requires Valid()
      modifies this, row
      ensures Valid()
      ensures result in {2, 1, 0, -1, -2, -3}
      ensures result == 2 <==> old(password.Some?)
      ensures result == -3 <==> old(password.None?) && creationRunning
      ensures result in {1, 0, -1, -2} ==>
                var p, m := EncryptionKey(model.email, pass), old(model);
                && (result == 0 <==> crypto.hashOf(p) != m.passwordHash)
                && (result == -2 <==> crypto.hashOf(p) == m.passwordHash && m.priv.Some? && m.priv.value.key != p)
                && (result == -1 <==>
                      && crypto.hashOf(p) == m.passwordHash && m.priv.Some? && m.priv.value.key == p
                      && m.pub.Some? && m.pub.value != crypto.publicOf(m.priv.value.secret))
                && (result != 0 ==> password == Some(p))
      ensures result in {2, -3, 0} ==> unchanged(this)
      ensures result == -1 ==> keyPair.None?
      ensures result == -2 || (result == 1 && model.priv.None?) ==> keyPair == old(keyPair) && canDecrypt == old(canDecrypt)
      ensures result == 1 && model.priv.Some? ==> canDecrypt && keyPair == Some(FullPair(crypto, model.priv.value.secret))
      // a missing public key is filled in, in memory and in the row
      ensures var fill := result == 1 && old(model.pub).None? && old(model.priv).Some?;
              && model == (if !fill then old(model)
                           else old(model).(pub := Some(crypto.publicOf(old(model.priv.value.secret)))))
              && row.record == (if fill && model.id != 0 then old(row.record).(pub := model.pub) else old(row.record))
    {
      if password.Some? {
        return 2;
      }
      if creationRunning {
        return -3;
      }
      var key := EncryptionKey(model.email, pass);
      if crypto.hashOf(key) == model.passwordHash {
        password := Some(key);
        if model.priv.None? {
          return 1;
        } else if model.priv.value.key == key {
          var clear := model.priv.value.secret;
          if keyPair.Some? {
            if keyPair.value.secret == Some(clear) {
              canDecrypt := true;
              return 1;
            } else {
              keyPair := None;
            }
          }
          keyPair := Some(FullPair(crypto, clear));
          if model.pub.None? {
            model := model.(pub := Some(keyPair.value.pub));
            var _ := UpdatePublicKey();
          } else if keyPair.value.pub != model.pub.value {
            keyPair := None;
            return -1;
          }
          canDecrypt := true;
          return 1;
        } else {
          return -2;
        }
      }
      return 0;
    }

    // ---------------------------------------------------------------- setting a key pair

    /** 1: the private key was encrypted into the record in memory; 0: there is no password yet. */
    method SetGradidoKeyPair(kp: KeyPair) returns (result: int)
      requires Valid()
      requires kp.secret.Some? ==> kp == FullPair(crypto, kp.secret.value)
      modifies this
      ensures password == old(password) && keyPair == Some(kp)
      ensures result == if password.Some? then 1 else 0
      ensures model == old(model).(
                pub := Some(kp.pub),
                priv := if password.None? then old(model.priv)
                        else if kp.secret.None? then None
                        else Some(Sealed(password.value, kp.secret.value)))
      ensures canDecrypt == (old(canDecrypt) || password.Some?)
      // a pair without its private half breaks the promise of the flag, and nothing else does
      ensures Valid() <==> (password.Some? ==> kp.secret.Some?)
    {
      keyPair := Some(kp);
      model := model.(pub := Some(kp.pub));
      if password.Some? {
        var crypted := if kp.secret.Some? then Some(Sealed(password.value, kp.secret.value)) else None;
        model := model.(priv := crypted);
        canDecrypt := true;
        return 1;
      }
      return 0;
    }

    // ---------------------------------------------------------------- changing the password

    method SetNewPassword(pass: string) returns (result: int)
      requires Valid()
      modifies this, row
      ensures Valid()
      ensures Changed(EncryptionKey(model.email, pass), old(password), old(keyPair), old(canDecrypt), old(model), old(row.record), result)
    {
      result := SetNewPasswordKey(EncryptionKey(model.email, pass));
    }

    /** The pair that is available for encrypting anew, read before the password changes. */
    ghost function AvailableSecret(pw: Option<EncryptionKey>, kp: Option<KeyPair>, m: Record): Option<Secret> {
      if kp.Some? && kp.value.secret.Some? then kp.value.secret
      else if pw.Some? && m.priv.Some? && m.priv.value.key == pw.value then Some(m.priv.value.secret)
      else None
    }

    /** What changing the password to key p does, by result. */
    ghost predicate Changed(p: EncryptionKey, pw: Option<EncryptionKey>, kp: Option<KeyPair>, can: bool,
                            m: Record, stored: Record, result: int)
      reads this, row
    {
      var same := pw.Some? && crypto.hashOf(pw.value) == crypto.hashOf(p);
      var k := AvailableSecret(pw, kp, m);
      if same then
        result == 0 && password == pw && keyPair == kp && canDecrypt == can && model == m && row.record == stored
      else if k.Some? && m.pub != Some(crypto.publicOf(k.value)) then
        result == -1 && password == pw && keyPair.None? && !canDecrypt && model == m && row.record == stored
      else if k.Some? then
        && result == (if crypto.hashOf(p) == 0 || m.id == 0 then 0 else 1)
        && password == Some(p) && keyPair == Some(FullPair(crypto, k.value)) && canDecrypt
        && model == m.(passwordHash := crypto.hashOf(p), priv := Some(Sealed(p, k.value)))
        && row.record == if result == 0 then stored
                         else stored.(passwordHash := crypto.hashOf(p), priv := Some(Sealed(p, k.value)))
      else
        && result == 2
        && password == Some(p) && keyPair == kp && canDecrypt == can
        && model == m.(passwordHash := crypto.hashOf(p))
        && row.record == if m.id == 0 then stored else stored.(passwordHash := crypto.hashOf(p))
    }

    /**
     0: the passwords are the same, or nothing was saved; 1: private key encrypted anew and saved;
     2: only the hash was saved; -1: stored public and private key do not match.
     */
    method SetNewPasswordKey(p: EncryptionKey) returns (result: int)
      requires Valid()
      modifies this, row
      ensures Valid()
      ensures Changed(p, old(password), old(keyPair), old(canDecrypt), old(model), old(row.record), result)
    {
      if password.Some? {
        if crypto.hashOf(password.value) == crypto.hashOf(p) {
          return 0;
        }
        if (keyPair.None? || keyPair.value.secret.None?) && model.priv.Some? {
          if model.priv.value.key == password.value {
            var clear := model.priv.value.secret;
            if keyPair.Some? && keyPair.value.secret != Some(clear) {
              keyPair := None;
            }
            if keyPair.None? {
              keyPair := Some(FullPair(crypto, clear));
            }
            if model.pub != Some(keyPair.value.pub) {
              keyPair := None;
              canDecrypt := false;
              return -1;
            }
          }
        }
      }
      password := Some(p);
      model := model.(passwordHash := crypto.hashOf(p));
      result := 2;
      if keyPair.Some? && keyPair.value.secret.Some? {
        model := model.(priv := Some(Sealed(p, keyPair.value.secret.value)));
        result := UpdatePrivateKeyAndPasswordHash();
        canDecrypt := true;
      } else if model.id != 0 {
        row.record := row.record.(passwordHash := crypto.hashOf(p));
      }
    }

    // ---------------------------------------------------------------- recovery from backups

    /** After a login that answered -2: the first backup with the right public key replaces the lost one. */
    method RecoverFromBackups(backups: seq<KeyPair>) returns (ghost used: int)
      requires Valid() && password.Some?
      requires FullPairs(crypto, backups)
      modifies this, row
      ensures Valid() && password == old(password) && model.pub == old(model.pub)
      ensures row.record.pub == old(row.record.pub) && row.record.passwordHash == old(row.record.passwordHash)
      ensures -1 <= used < |backups|
      ensures used == -1 <==> forall b | b in backups :: Some(b.pub) != old(model.pub)
      ensures used >= 0 ==> Some(backups[used].pub) == old(model.pub)
      ensures used >= 0 ==> forall j | 0 <= j < used :: Some(backups[j].pub) != old(model.pub)
      ensures used == -1 ==> unchanged(this) && unchanged(row)
      ensures used >= 0 ==>
                && keyPair == Some(backups[used]) && canDecrypt
                && model == old(model).(priv := Some(Sealed(password.value, backups[used].secret.value)))
                && row.record == if model.id == 0 then old(row.record) else old(row.record).(priv := model.priv)
    {
      var i := 0;
      while i < |backups|
        invariant 0 <= i <= |backups|
        invariant unchanged(this) && unchanged(row)
        invariant forall j | 0 <= j < i :: Some(backups[j].pub) != model.pub
      {
        var key := backups[i];
        if model.pub == Some(key.pub) {
          var r := SetGradidoKeyPair(key);
          if r == 1 {
            UpdatePrivateKey();
          }
          return i;
        }
        i := i + 1;
      }
      return -1;
    }
  }

  // ---------------------------------------------------------------- whole runs

  datatype Op =
    | LogIn(pass: string, creationRunning: bool)
    | NewPassword(pass: string)
    | NewPair(pair: KeyPair)
    | Recover(backups: seq<KeyPair>)

  ghost predicate FullPairs(crypto: Crypto, pairs: seq<KeyPair>) {
    forall b | b in pairs :: b.secret.Some? && b == FullPair(crypto, b.secret.value)
  }

  /**
   Any sequence of calls, with complete pairs, keeps the pair and the flag truthful, and the user the
   same; for a user without a record in the table nothing is ever written.
   */
  method Run(u: User, ops: seq<Op>)
    requires u.Valid()
    requires forall i | 0 <= i < |ops| && ops[i].NewPair? :: FullPairs(u.crypto, [ops[i].pair])
    requires forall i | 0 <= i < |ops| && ops[i].Recover? :: FullPairs(u.crypto, ops[i].backups)
    modifies u, u.row
    ensures u.Valid() && u.model.id == old(u.model.id) && u.model.email == old(u.model.email)
    ensures u.row.record.id == old(u.row.record.id) && u.row.record.email == old(u.row.record.email)
    ensures u.model.id == 0 ==> u.row.record == old(u.row.record)
  {
    var i := 0;
    while i < |ops|
      invariant 0 <= i <= |ops| && u.Valid()
      invariant u.model.id == old(u.model.id) && u.model.email == old(u.model.email)
      invariant u.row.record.id == old(u.row.record.id) && u.row.record.email == old(u.row.record.email)
      invariant u.model.id == 0 ==> u.row.record == old(u.row.record)
    {
      match ops[i] {
        case LogIn(pass, creationRunning) => var _ := u.Login(pass, creationRunning);
        case NewPassword(pass) => var _ := u.SetNewPassword(pass);
        case NewPair(pair) => assert pair in [pair]; var _ := u.SetGradidoKeyPair(pair);
        case Recover(backups) => if u.password.Some? { var _ := u.RecoverFromBackups(backups); }
      }
      i := i + 1;
    }
  }

  /** Different passwords for the e-mail have different hashes, none of them zero. */
  ghost predicate HashesTell(crypto: Crypto, email: string) {
    && (forall a, b | crypto.hashOf(EncryptionKey(email, a)) == crypto.hashOf(EncryptionKey(email, b)) :: a == b)
    && (forall a :: crypto.hashOf(EncryptionKey(email, a)) != 0)
  }

  /**
   Whatever passwords a logged-in user sets, a new user object that logs in with the last one gets
   the same key pair.
   */
  method ChangePasswords(u: User, ghost k: Secret, first: string, passwords: seq<string>)
    returns (again: User, result: int)
    requires u.Owns(EncryptionKey(u.model.email, first), k)
    requires HashesTell(u.crypto, u.model.email)
    modifies u, u.row
    ensures fresh(again) && again.row == u.row
    ensures result == 1 && again.keyPair == Some(FullPair(u.crypto, k)) && again.canDecrypt
    ensures u.Owns(EncryptionKey(u.model.email, if passwords == [] then first else passwords[|passwords| - 1]), k)
  {
    var last := first;
    var i := 0;
    while i < |passwords|
      invariant 0 <= i <= |passwords|
      invariant u.model.email == old(u.model.email)
      invariant last == if i == 0 then first else passwords[i - 1]
      invariant u.Owns(EncryptionKey(u.model.email, last), k)
    {
      var r := u.SetNewPassword(passwords[i]);
      last := passwords[i];
      i := i + 1;
    }
    again := new User(u.crypto, u.row);
    result := again.Login(last, false);
  }

  /** A pair for a user: with a password its encrypted half is saved too, without one only the public half. */
  method GenerateKeys(u: User, k: Secret) returns (saved: bool)
    requires u.Valid()
    modifies u, u.row
    ensures u.Valid() && u.password == old(u.password) && u.keyPair == Some(FullPair(u.crypto, k))
    ensures saved <==> u.model.id != 0
    ensures var pub, p := Some(u.crypto.publicOf(k)), u.password;
            && u.model == old(u.model).(pub := pub, priv := if p.Some? then Some(Sealed(p.value, k)) else old(u.model).priv)
            && u.row.record ==
               if !saved then old(u.row.record)
               else if p.Some? then old(u.row.record).(pub := pub, priv := Some(Sealed(p.value, k)))
               else old(u.row.record).(pub := pub)
  {
    var result := u.SetGradidoKeyPair(FullPair(u.crypto, k));
    var rows: nat;
    if result == 1 {
      rows := u.UpdatePublicKeyAndPrivateKey();
    } else {
      rows := u.UpdatePublicKey();
    }
    saved := rows != 0;
  }

  /**
   Registration: the pair comes first and the first password after it. The password then encrypts the
   pair, and lets a new user object log in and hold it, exactly if its hash is not zero.
   */
  method Register(crypto: Crypto, row: Row, k: Secret, pass: string)
    returns (u: User, changed: int, again: User, result: int)
    requires row.record.id != 0 && row.record.pub.None? && row.record.priv.None?
    modifies row
    ensures fresh(u) && u.Valid() && u.keyPair == Some(FullPair(crypto, k)) && u.canDecrypt
    ensures fresh(again) && again.row == row
    ensures var p := EncryptionKey(row.record.email, pass);
            && row.record.email == old(row.record.email) && row.record.pub == Some(crypto.publicOf(k))
            && (crypto.hashOf(p) != 0 ==> changed == 1 && result == 1 && again.Owns(p, k) && Keeps(crypto, row.record, p, k))
            && (again.keyPair == Some(FullPair(crypto, k)) && again.canDecrypt <==> crypto.hashOf(p) != 0)
  {
    u := new User(crypto, row);
    var saved := GenerateKeys(u, k);
    changed := u.SetNewPassword(pass);
    again := new User(crypto, row);
    result := again.Login(pass, false);
  }

  /** The other order, for a user who has logged in without keys: the pair is encrypted under the password at once. */
  method KeysAfterPassword(crypto: Crypto, row: Row, k: Secret, pass: string)
    returns (first: int, again: User, result: int)
    requires row.record.id != 0 && row.record.pub.None? && row.record.priv.None?
    requires row.record.passwordHash == crypto.hashOf(EncryptionKey(row.record.email, pass))
    modifies row
    ensures fresh(again) && again.row == row
    ensures first == result == 1
    ensures again.Owns(EncryptionKey(row.record.email, pass), k)
    ensures again.keyPair == Some(FullPair(crypto, k)) && again.canDecrypt
  {
    var u := new User(crypto, row);
    first := u.Login(pass, false);
    var saved := GenerateKeys(u, k);
    again := new User(crypto, row);
    result := again.Login(pass, false);
  }

  /**
   One change keeps the key, and lets the new password in, exactly if the new password is the old one
   or has a hash of its own, other than zero and the old one's.
   */
  method ChangeKeepsExactly(u: User, ghost k: Secret, ghost p: EncryptionKey, pass: string)
    returns (again: User, result: int)
    requires u.Owns(p, k)
    modifies u, u.row
    ensures fresh(again) && again.row == u.row
    ensures var q := EncryptionKey(u.model.email, pass);
            (result == 1 && again.keyPair == Some(FullPair(u.crypto, k)) && again.canDecrypt) <==>
            (q == p || u.crypto.hashOf(q) !in {0, u.crypto.hashOf(p)})
  {
    var r := u.SetNewPassword(pass);
    again := new User(u.crypto, u.row);
    result := again.Login(pass, false);
  }

  /**
   A record whose public key does not belong to its private key: login finds that out, and so does a
   change of the password after it, which then changes nothing.
   */
  method MismatchRefused(crypto: Crypto, row: Row, ghost k: Secret, pass: string, other: string)
    returns (u: User, first: int, changed: int)
    requires var p := EncryptionKey(row.record.email, pass);
             && row.record.passwordHash == crypto.hashOf(p) && row.record.priv == Some(Sealed(p, k))
             && row.record.pub.Some? && row.record.pub != Some(crypto.publicOf(k))
             && crypto.hashOf(EncryptionKey(row.record.email, other)) != crypto.hashOf(p)
    modifies row
    ensures first == -1 && changed == -1 && u.keyPair.None? && !u.canDecrypt
    ensures row.record == old(row.record) && u.model == row.record
  {
    u := new User(crypto, row);
    first := u.Login(pass, false);
    changed := u.SetNewPassword(other);
  }

  /**
   A password set without the old one locks the private key: the next login answers -2. If some
   backup has the stored public key, recovery makes the following login succeed with that backup's
   pair; otherwise it answers -2 again. The public key never changes.
   */
  method ResetAndRecover(crypto: Crypto, row: Row, ghost p: EncryptionKey, ghost k: Secret,
                         pass: string, backups: seq<KeyPair>)
    returns (changed: int, locked: int, ghost used: int, again: User, result: int)
    requires Keeps(crypto, row.record, p, k) && row.record.id != 0
    requires EncryptionKey(row.record.email, pass) != p
    requires FullPairs(crypto, backups)
    modifies row
    ensures changed == 2 && locked == -2
    ensures row.record.pub == old(row.record.pub) && row.record.email == old(row.record.email)
    ensures -1 <= used < |backups|
    ensures used == -1 <==> forall b | b in backups :: b.pub != crypto.publicOf(k)
    ensures used >= 0 ==> result == 1 && backups[used].pub == crypto.publicOf(k)
    ensures used >= 0 ==> again.Owns(EncryptionKey(row.record.email, pass), backups[used].secret.value)
    ensures used >= 0 ==> again.row == row && again.keyPair == Some(backups[used]) && again.canDecrypt
    ensures used == -1 ==> result == -2
  {
    var resetting := new User(crypto, row);
    changed := resetting.SetNewPassword(pass);
    var locking := new User(crypto, row);
    locked := locking.Login(pass, false);
    used := locking.RecoverFromBackups(backups);
    again := new User(crypto, row);
    result := again.Login(pass, false);
  }
}
