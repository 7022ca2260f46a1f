/**
 * The `storage` object: credentials, settings and the master-password hash
 * kept under three fixed keys of the browser's key-value store. Every
 * credential operation reads the whole encrypted collection, changes it in
 * memory and writes the whole collection back. The operations are modelled as
 * sequential steps on an in-memory map.
 */
module Vault {
  import opened Wrappers
  import opened CodeUnits
  import opened Records
  import opened Seqs
  import Text
  import Cipher
  import MasterKey

  const CredentialsKey: string := "onelogin_credentials"
  const SettingsKey: string := "onelogin_settings"
  const MasterKeyName: string := "onelogin_master"

  /** A value of the key-value backend: storage.ts keeps strings under the credentials and
      master keys and a settings object under the settings key. */
  datatype Stored = Str(s: JsString) | Obj(settings: AppSettings)

  /** JavaScript truthiness of a stored value: the empty string is falsy, an object is not. */
  predicate Truthy(v: Stored) {
    match v
    case Str(s) => s != []
    case Obj(_) => true
  }

  type Backend = map<string, Stored>

  /** The values the vault itself writes: a string under the credentials and master keys,
      a settings object under the settings key. */
  predicate WellTyped(b: Backend) {
    && (CredentialsKey in b ==> b[CredentialsKey].Str?)
    && (MasterKeyName in b ==> b[MasterKeyName].Str?)
    && (SettingsKey in b ==> b[SettingsKey].Obj?)
  }

  /** The browser and library functions the vault calls: `JSON.stringify` and `JSON.parse` on
      credential lists (`None` where `JSON.parse` throws), SHA-256, and the `hostname` of
      `new URL(...)` (`None` where the constructor throws). */
  datatype Platform = Platform(
    stringify: seq<LoginCredential> -> JsString,
    parse: JsString -> Option<seq<LoginCredential>>,
    sha256: MasterKey.Sha256,
    hostname: string -> Option<string>)

  /** What the vault relies on from JSON: the text of a list is never empty (it starts with `[`)
      and parses back to the same list. */
  ghost predicate JsonRoundTrips(pl: Platform) {
    forall cs :: |pl.stringify(cs)| > 0 && pl.parse(pl.stringify(cs)) == Some(cs)
  }

  // ---- the collection operations ------------------------------------------

  /** `credentials.filter(c => c.id !== id)`. */
  function WithoutId(cs: seq<LoginCredential>, id: string): (r: seq<LoginCredential>)
    ensures |r| <= |cs|
    ensures forall i :: 0 <= i < |r| ==> r[i].id != id && r[i] in cs
  {
    Filter(cs, (c: LoginCredential) => c.id != id)
  }

  /** `existing.filter(c => c.id !== credential.id).concat(credential)`. */
  function Upsert(cs: seq<LoginCredential>, c: LoginCredential): (u: seq<LoginCredential>)
    ensures 0 < |u| <= |cs| + 1 && u[|u| - 1] == c
  {
    WithoutId(cs, c.id) + [c]
  }

  /** Deleting keeps, in their order and as often as they occur, exactly the entries with
      another id; deleting an id that is not present changes nothing. */
  lemma WithoutIdSpec(cs: seq<LoginCredential>, id: string)
    ensures forall i :: 0 <= i < |WithoutId(cs, id)| ==> WithoutId(cs, id)[i].id != id
    ensures forall i :: 0 <= i < |cs| && cs[i].id != id ==> cs[i] in WithoutId(cs, id)
    ensures IsSubsequence(WithoutId(cs, id), cs)
    ensures (forall i :: 0 <= i < |cs| ==> cs[i].id != id) ==> WithoutId(cs, id) == cs
    ensures forall x :: multiset(WithoutId(cs, id))[x] == if x.id != id then multiset(cs)[x] else 0
  {
    FilterIsSubsequence(cs, (c: LoginCredential) => c.id != id);
    FilterCount(cs, (c: LoginCredential) => c.id != id);
    if forall i :: 0 <= i < |cs| ==> cs[i].id != id {
      FilterAll(cs, (c: LoginCredential) => c.id != id);
    }
  }

  /** After an upsert the new credential is last and is the only entry with its id; the others
      are the old entries with other ids, in their old order. */
  lemma UpsertSpec(cs: seq<LoginCredential>, c: LoginCredential)
    ensures var u := Upsert(cs, c);
      && |u| > 0 && u[|u| - 1] == c
      && (forall i :: 0 <= i < |u| - 1 ==> u[i].id != c.id)
      && u[..|u| - 1] == WithoutId(cs, c.id)
      && IsSubsequence(u[..|u| - 1], cs)
      && (forall i :: 0 <= i < |cs| && cs[i].id != c.id ==> cs[i] in u)
  {
    var w := WithoutId(cs, c.id);
    FilterIsSubsequence(cs, (x: LoginCredential) => x.id != c.id);
    var u := Upsert(cs, c);
    assert u[..|u| - 1] == w;
    forall i | 0 <= i < |cs| && cs[i].id != c.id ensures cs[i] in u {
      assert cs[i] in w;
    }
  }

  /** Upserting twice with the same credential is the same as upserting once. */
  lemma UpsertIdempotent(cs: seq<LoginCredential>, c: LoginCredential)
    ensures Upsert(Upsert(cs, c), c) == Upsert(cs, c)
  {
    var w := WithoutId(cs, c.id);
    FilterAll(w, (x: LoginCredential) => x.id != c.id);
    assert WithoutId(w, c.id) == w;
    FilterAppend(w, [c], (x: LoginCredential) => x.id != c.id);
    assert WithoutId([c], c.id) == [];
  }

  /** The domain test of `findCredentialsForUrl`: an exact hostname match, or a substring match
      on the raw url when that url does not parse. */
  predicate MatchesDomain(pl: Platform, c: LoginCredential, domain: string) {
    match pl.hostname(c.url)
    case Some(host) => host == domain
    case None => Text.Contains(c.url, domain)
  }

  function ForDomain(pl: Platform, cs: seq<LoginCredential>, domain: string): seq<LoginCredential> {
    Filter(cs, (c: LoginCredential) => MatchesDomain(pl, c, domain))
  }

  /** The stored blob of a collection decrypts and parses back to that collection. */
  lemma StoredCollectionRoundTrip(pl: Platform, cs: seq<LoginCredential>, p: JsString)
    requires JsonRoundTrips(pl)
    requires Cipher.Encrypt(pl.stringify(cs), p).Some?
    ensures var blob := Cipher.Encrypt(pl.stringify(cs), p).value;
      && blob != []
      && Cipher.Decrypt(blob, p) == pl.stringify(cs)
      && pl.parse(Cipher.Decrypt(blob, p)) == Some(cs)
  {
    assert |pl.stringify(cs)| > 0 && pl.parse(pl.stringify(cs)) == Some(cs);
    Cipher.DecryptEncrypt(pl.stringify(cs), p);
    Cipher.EncryptNonEmpty(pl.stringify(cs), p);
  }

  // ---- the storage object -------------------------------------------------

  class Storage {
    const platform: Platform
    var backend: Backend

    ghost predicate Valid()
      reads this
    {
      JsonRoundTrips(platform) && WellTyped(backend)
    }

    constructor (platform: Platform, initial: Backend)
      requires JsonRoundTrips(platform) && WellTyped(initial)
      ensures Valid()
      ensures this.platform == platform && backend == initial
    {
      this.platform := platform;
      backend := initial;
    }

    /** The stored credentials blob when it is truthy (`if (!encrypted) return []`). */
    function StoredBlob(): Option<JsString>
      reads this
    {
      if CredentialsKey in backend && backend[CredentialsKey].Str? && backend[CredentialsKey].s != []
      then Some(backend[CredentialsKey].s)
      else None  // absent, empty, or an object, whose string form "[object Object]" atob rejects
    }

    /** `getCredentials(p)`: `[]` when no blob is stored, when decryption yields the empty
        string, or when parsing throws; otherwise the parsed list. It never throws. */
    function GetCredentials(p: JsString): (r: seq<LoginCredential>)
      reads this
      ensures StoredBlob().None? ==> r == []
      ensures StoredBlob().Some? && Cipher.Decrypt(StoredBlob().value, p) == [] ==> r == []
      ensures StoredBlob().Some? && platform.parse(Cipher.Decrypt(StoredBlob().value, p)).None? ==> r == []
      ensures r != [] ==> StoredBlob().Some? && platform.parse(Cipher.Decrypt(StoredBlob().value, p)) == Some(r)
      ensures (&& StoredBlob().Some? && Cipher.Decrypt(StoredBlob().value, p) != []
               && platform.parse(Cipher.Decrypt(StoredBlob().value, p)).Some?) ==>
        r == platform.parse(Cipher.Decrypt(StoredBlob().value, p)).value
    {
      match StoredBlob()
      case None => []
      case Some(blob) =>
        var decrypted := Cipher.Decrypt(blob, p);
        if decrypted == [] then []
        else match platform.parse(decrypted)
          case None => []
          case Some(cs) => cs
    }

    /** `saveCredential(c, p)`: replaces the entry with `c.id`, if any, by `c` at the end. It fails
        (the promise rejects and nothing is written) when `btoa` throws on the ciphertext. A
        passphrase under which the blob decrypts to "" or to text that does not parse reads an
        empty collection, so the blob is then overwritten with `[c]`. */
    method SaveCredential(c: LoginCredential, p: JsString) returns (ok: bool)
      requires Valid()
      modifies this
      ensures Valid()
      ensures var text := platform.stringify(Upsert(old(GetCredentials(p)), c));
        && ok == Cipher.Encrypt(text, p).Some?
        && backend == if ok then old(backend)[CredentialsKey := Str(Cipher.Encrypt(text, p).value)]
                      else old(backend)
      ensures ok ==> GetCredentials(p) == Upsert(old(GetCredentials(p)), c)
    {
      var existing := GetCredentials(p);
      var updated := Upsert(existing, c);
      var encrypted := Cipher.Encrypt(platform.stringify(updated), p);
      if encrypted.None? {
        return false;
      }
      StoredCollectionRoundTrip(platform, updated, p);
      backend := backend[CredentialsKey := Str(encrypted.value)];
      ok := true;
    }

    /** `deleteCredential(id, p)`: removes every entry with that id, keeping the others in order. */
    method DeleteCredential(id: string, p: JsString) returns (ok: bool)
      requires Valid()
      modifies this
      ensures Valid()
      ensures var text := platform.stringify(WithoutId(old(GetCredentials(p)), id));
        && ok == Cipher.Encrypt(text, p).Some?
        && backend == if ok then old(backend)[CredentialsKey := Str(Cipher.Encrypt(text, p).value)]
                      else old(backend)
      ensures ok ==> GetCredentials(p) == WithoutId(old(GetCredentials(p)), id)
    {
      var credentials := GetCredentials(p);
      var updated := WithoutId(credentials, id);
      var encrypted := Cipher.Encrypt(platform.stringify(updated), p);
      if encrypted.None? {
        return false;
      }
      StoredCollectionRoundTrip(platform, updated, p);
      backend := backend[CredentialsKey := Str(encrypted.value)];
      ok := true;
    }

    /** `findCredentialsForUrl(url, p)`: `None` where `new URL(url)` throws; otherwise the stored
        credentials matching the url's hostname, in stored order, each as often as it is stored. */
    function FindCredentialsForUrl(url: string, p: JsString): (r: Option<seq<LoginCredential>>)
      reads this
      ensures r.None? <==> platform.hostname(url).None?
      ensures r.Some? ==>
        var domain := platform.hostname(url).value;
        var cs := GetCredentials(p);
        && IsSubsequence(r.value, cs)
        && (forall i :: 0 <= i < |r.value| ==> MatchesDomain(platform, r.value[i], domain))
        && (forall i :: 0 <= i < |cs| && MatchesDomain(platform, cs[i], domain) ==> cs[i] in r.value)
        && (forall x :: multiset(r.value)[x] == if MatchesDomain(platform, x, domain) then multiset(cs)[x] else 0)
    {
      match platform.hostname(url)
      case None => None
      case Some(domain) =>
        FilterIsSubsequence(GetCredentials(p), (c: LoginCredential) => MatchesDomain(platform, c, domain));
        FilterCount(GetCredentials(p), (c: LoginCredential) => MatchesDomain(platform, c, domain));
        Some(ForDomain(platform, GetCredentials(p), domain))
    }

    /** `getSettings()`: the saved settings, or the defaults when none are saved. */
    function GetSettings(): (r: AppSettings)
      reads this
      ensures SettingsKey !in backend ==> r == DefaultSettings
      ensures SettingsKey in backend && backend[SettingsKey].Obj? ==> r == backend[SettingsKey].settings
    {
      if SettingsKey in backend && backend[SettingsKey].Obj? then backend[SettingsKey].settings
      else DefaultSettings  // a string here never comes from the vault (see WellTyped)
    }

    method SaveSettings(settings: AppSettings)
      requires Valid()
      modifies this
      ensures Valid()
      ensures backend == old(backend)[SettingsKey := Obj(settings)]
      ensures GetSettings() == settings
    {
      backend := backend[SettingsKey := Obj(settings)];
    }

    /** `hasMasterPassword()`: a truthy value is stored under the master key. */
    predicate HasMasterPassword()
      reads this
    {
      MasterKeyName in backend && Truthy(backend[MasterKeyName])
    }

    /** `setMasterPassword(p)`: stores the hexadecimal SHA-256 digest of `p`. */
    method SetMasterPassword(password: JsString)
      requires Valid()
      modifies this
      ensures Valid()
      ensures backend == old(backend)[MasterKeyName := Str(MasterKey.HashPassword(platform.sha256, password))]
      ensures HasMasterPassword() && VerifyMasterPassword(password)
      ensures forall q :: VerifyMasterPassword(q) <==> platform.sha256(q) == platform.sha256(password)
    {
      var hash := MasterKey.HashPassword(platform.sha256, password);
      backend := backend[MasterKeyName := Str(hash)];
      forall q ensures VerifyMasterPassword(q) <==> platform.sha256(q) == platform.sha256(password) {
        MasterKey.VerifyIffSameDigest(platform.sha256, password, q);
      }
    }

    /** `verifyMasterPassword(q)`: false when no hash is stored, else whether the hash of `q`
        equals the stored one. */
    function VerifyMasterPassword(candidate: JsString): (r: bool)
      reads this
      ensures !HasMasterPassword() ==> !r
      ensures r <==> MasterKeyName in backend && backend[MasterKeyName] == Str(MasterKey.HashPassword(platform.sha256, candidate))
    {
      if !(MasterKeyName in backend && Truthy(backend[MasterKeyName])) then false
      else match backend[MasterKeyName]
        case Str(stored) => MasterKey.VerifyPassword(platform.sha256, candidate, stored)
        case Obj(_) => false
    }

    /** `clearAllData()`: empties the backend, so all three records are absent. */
    method ClearAllData()
      requires Valid()
      modifies this
      ensures Valid()
      ensures backend == map[]
      ensures !HasMasterPassword() && GetSettings() == DefaultSettings
      ensures forall p :: GetCredentials(p) == []
    {
      backend := map[];
    }
  }
}
