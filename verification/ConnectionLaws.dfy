/** What saving, exporting and importing connections promise about secrets and settings. */
module ConnectionLaws {
  import opened Text
  import opened IdpSettings
  import opened Connections

  ghost predicate LawfulModel(m: Model) {
    GoodModel(m) && SecretsUnvalidated(m)
  }

  // --- one save -----------------------------------------------------------------------------

  /** The secret a save leaves in a field: a generated key, the kept one, or the submitted one. */
  function NewSecret(vault: Vault, m: Model, existing: Config, data: Config, draw: Draw, field: string): string
    requires Stored(vault, m, existing, data, draw).Some?
  {
    var settings := Validate(m, Merged(vault, m, existing, data)).value;
    if Generates(vault, m, existing, settings, field) then draw.key(field)
    else if Unsubmitted(data, field) then Plain(vault, existing, field)
    else if data[field].Str? then data[field].s
    else ""
  }

  lemma {:induction false} SettingsSecret(vault: Vault, m: Model, existing: Config, data: Config, field: string)
    requires LawfulModel(m) && field in m.secrets && Validate(m, Merged(vault, m, existing, data)).Some?
    ensures var settings := Validate(m, Merged(vault, m, existing, data)).value;
            && field in settings && settings[field].Str?
            && settings[field] == (if Unsubmitted(data, field) then Str(Plain(vault, existing, field)) else data[field])
  {
    var merged := Merged(vault, m, existing, data);
    assert field in merged && Validated(m, field, merged[field]).Some?;
  }

  lemma {:induction false} SealedOpens(vault: Vault, s: string, nonce: nat)
    requires Ideal(vault)
    ensures var v := SealedValue(vault, Str(s), nonce);
            && v.Str? && (v.s == "" || IsEncrypted(v.s))
            && (Decrypt(vault, v.s) == Clear(s) <==> !IsEncrypted(s) || Decrypt(vault, s) == Clear(s))
            && (Decrypt(vault, v.s) == Raised <==> Decrypt(vault, s) == Raised)
  {
    DecryptEncrypt(vault, s, nonce);
  }

  lemma {:induction false} StoredSecret(vault: Vault, m: Model, existing: Config, data: Config, draw: Draw, field: string)
    requires LawfulModel(m) && Stored(vault, m, existing, data, draw).Some? && field in m.secrets
    ensures var stored := Stored(vault, m, existing, data, draw).value;
            && field in stored
            && stored[field] == SealedValue(vault, Str(NewSecret(vault, m, existing, data, draw, field)), draw.nonce(field))
  {
    SettingsSecret(vault, m, existing, data, field);
    var settings := Validate(m, Merged(vault, m, existing, data)).value;
    assert WithKeys(vault, m, existing, settings, draw)[field]
        == Str(NewSecret(vault, m, existing, data, draw, field));
  }

  /**
   After a save every secret field is blank or carries the encryption prefix. It reads back as the new
   secret exactly when that secret does not itself look encrypted (or is its own opening), and reading
   it raises exactly when the new secret is the prefix and then something that is not all ASCII.
   */
  lemma {:induction false} SavedSecret(vault: Vault, m: Model, existing: Config, data: Config, draw: Draw, field: string)
    requires Ideal(vault) && LawfulModel(m) && Stored(vault, m, existing, data, draw).Some? && field in m.secrets
    ensures var stored := Stored(vault, m, existing, data, draw).value;
            var s := NewSecret(vault, m, existing, data, draw, field);
            && field in stored && stored[field].Str?
            && (stored[field].s == "" || IsEncrypted(stored[field].s))
            && (Plain(vault, stored, field) == s <==> !IsEncrypted(s) || Decrypt(vault, s) == Clear(s))
            && (Readable(vault, stored, field) <==> !(IsEncrypted(s) && !IsAscii(s[|PREFIX|..])))
  {
    StoredSecret(vault, m, existing, data, draw, field);
    SealedOpens(vault, NewSecret(vault, m, existing, data, draw, field), draw.nonce(field));
  }

  /** A new secret that does not look encrypted is stored as a sealed token and nothing else. */
  lemma {:induction false} NothingInClear(vault: Vault, m: Model, existing: Config, data: Config, draw: Draw, field: string)
    requires LawfulModel(m) && Stored(vault, m, existing, data, draw).Some? && field in m.secrets
    requires !IsEncrypted(NewSecret(vault, m, existing, data, draw, field))
    ensures var stored := Stored(vault, m, existing, data, draw).value;
            field in stored
            && stored[field] == Str(Encrypt(vault, NewSecret(vault, m, existing, data, draw, field), draw.nonce(field)))
  {
    StoredSecret(vault, m, existing, data, draw, field);
  }

  // --- generated keys --------------------------------------------------------------------------------

  /** The key a feature needs is there after a save that turns the feature on: the one stored before, else a fresh one. */
  lemma {:induction false} FeatureHasKey(vault: Vault, m: Model, existing: Config, data: Config, draw: Draw, flag: string, field: string)
    requires Ideal(vault) && LawfulModel(m) && field in m.generated && m.generated[field] == flag && flag !in m.secrets
    requires flag in m.defaults && m.defaults[flag].Flag? && flag in data && Stored(vault, m, existing, data, draw).Some?
    requires Unsubmitted(data, field) && draw.key(field) != "" && !IsEncrypted(draw.key(field)) && !IsEncrypted(Plain(vault, existing, field))
    ensures data[flag].Flag?
    ensures Plain(vault, Stored(vault, m, existing, data, draw).value, field) ==
            if Plain(vault, existing, field) == "" && data[flag] == Flag(true) then draw.key(field) else Plain(vault, existing, field)
  {
    hide Plain, Stored;
    StoredSettings(vault, m, existing, data, draw);
    FlagValidates(vault, m, existing, data, flag);
    SavedSecret(vault, m, existing, data, draw, field);
  }

  lemma {:induction false} FlagValidates(vault: Vault, m: Model, existing: Config, data: Config, flag: string)
    requires Validate(m, Merged(vault, m, existing, data)).Some? && flag !in m.secrets
    requires flag in m.defaults && m.defaults[flag].Flag? && flag in data
    ensures data[flag].Flag? && flag in Validate(m, Merged(vault, m, existing, data)).value
    ensures Validate(m, Merged(vault, m, existing, data)).value[flag] == data[flag]
  {
    hide Plain;
    assert Merged(vault, m, existing, data)[flag] == data[flag];
    assert Validated(m, flag, data[flag]).Some?;
  }

  /** The deployed keys and the flags that ask for them. */
  lemma {:induction false} DeployedKeys()
    ensures OIDC.generated == map["dpop_private_key" := "use_dpop", "jwe_private_key" := "accept_encrypted_id_token"]
    ensures SAML.generated == map[]
    ensures OIDC.secrets == {"client_secret", "dpop_private_key", "jwe_private_key"} && SAML.secrets == {"sp_private_key"}
    ensures "use_dpop" in OIDC.defaults && OIDC.defaults["use_dpop"] == Flag(false) && "use_dpop" !in OIDC.secrets
    ensures "accept_encrypted_id_token" in OIDC.defaults && OIDC.defaults["accept_encrypted_id_token"] == Flag(false)
    ensures "accept_encrypted_id_token" !in OIDC.secrets
  {
  }

  // --- any sequence of saves ---------------------------------------------------------------------

  datatype Edit = Edit(data: Config, draw: Draw)

  function AfterEdit(vault: Vault, m: Model, config: Config, edit: Edit): Config {
    match Stored(vault, m, config, edit.data, edit.draw)
    case None => config
    case Some(stored) => stored
  }

  function AfterEdits(vault: Vault, m: Model, config: Config, edits: seq<Edit>): Config
    decreases |edits|
  {
    if edits == [] then config
    else AfterEdits(vault, m, AfterEdit(vault, m, config, edits[0]), edits[1..])
  }

  /** Every secret is left blank, out, or as the placeholder; any feature may be toggled. */
  predicate LeavesSecrets(m: Model, edit: Edit) {
    forall f :: f in m.secrets ==> Unsubmitted(edit.data, f)
  }

  predicate GoodDraw(m: Model, draw: Draw) {
    forall f :: f in m.generated ==> draw.key(f) != "" && !IsEncrypted(draw.key(f))
  }

  predicate PlainSecrets(vault: Vault, m: Model, config: Config) {
    forall f :: f in m.secrets ==> !IsEncrypted(Plain(vault, config, f))
  }

  lemma {:induction false} EditKeepsSecret(vault: Vault, m: Model, config: Config, edit: Edit, f: string)
    requires Ideal(vault) && LawfulModel(m) && f in m.secrets
    requires PlainSecrets(vault, m, config) && LeavesSecrets(m, edit) && GoodDraw(m, edit.draw)
    ensures var after := AfterEdit(vault, m, config, edit);
            && !IsEncrypted(Plain(vault, after, f))
            && (Readable(vault, after, f) <==> Readable(vault, config, f))
            && (Plain(vault, config, f) != "" || f !in m.generated ==> Plain(vault, after, f) == Plain(vault, config, f))
  {
    if Stored(vault, m, config, edit.data, edit.draw).Some? {
      SavedSecret(vault, m, config, edit.data, edit.draw, f);
    }
  }

  /**
   No sequence of saves that leaves the secrets alone, whatever it toggles, changes a decrypted
   secret; in particular a generated key never changes once there is one.
   */
  lemma {:induction false} SecretsSurviveEdits(vault: Vault, m: Model, config: Config, edits: seq<Edit>, field: string)
    requires Ideal(vault) && LawfulModel(m) && PlainSecrets(vault, m, config) && field in m.secrets
    requires forall e :: e in edits ==> LeavesSecrets(m, e) && GoodDraw(m, e.draw)
    ensures Plain(vault, config, field) != "" || field !in m.generated ==>
              Plain(vault, AfterEdits(vault, m, config, edits), field) == Plain(vault, config, field)
    ensures Readable(vault, AfterEdits(vault, m, config, edits), field) <==> Readable(vault, config, field)
    decreases |edits|
  {
    if edits != [] {
      var next := AfterEdit(vault, m, config, edits[0]);
      forall f | f in m.secrets
        ensures !IsEncrypted(Plain(vault, next, f))
        ensures Readable(vault, next, f) <==> Readable(vault, config, f)
        ensures Plain(vault, config, f) != "" || f !in m.generated ==> Plain(vault, next, f) == Plain(vault, config, f)
      {
        EditKeepsSecret(vault, m, config, edits[0], f);
      }
      SecretsSurviveEdits(vault, m, next, edits[1..], field);
    }
  }

  // --- secrets that look encrypted already ------------------------------------------------------------

  /** Saving a new connection with one secret that begins with the prefix stores it as typed. */
  lemma {:induction false} PrefixedStoredAsTyped(vault: Vault, m: Model, field: string, tail: string, draw: Draw)
    requires LawfulModel(m) && field in m.secrets && field !in m.generated
    ensures var stored := Stored(vault, m, map[], map[field := Str(PREFIX + tail)], draw);
            stored.Some? && field in stored.value && stored.value[field] == Str(PREFIX + tail)
  {
    var data: Config := map[field := Str(PREFIX + tail)];
    var merged := Merged(vault, m, map[], data);
    forall f | f in m.defaults && f in merged ensures Validated(m, f, merged[f]).Some? {
      assert f in m.secrets && merged[f].Str?;
    }
    var s := PREFIX + tail;
    assert s[0] == 'e' && !Unsubmitted(data, field);
    assert Validate(m, merged).Some?;
    StoredSecret(vault, m, map[], data, draw, field);
    assert NewSecret(vault, m, map[], data, draw, field) == s;
  }

  lemma {:induction false} PrefixedDecrypts(vault: Vault, config: Config, field: string, tail: string)
    requires field in config && config[field] == Str(PREFIX + tail)
    ensures Readable(vault, config, field) <==> IsAscii(tail)
    ensures IsAscii(tail) && vault.open(tail) == None ==> Plain(vault, config, field) == ""
  {
    assert (PREFIX + tail)[|PREFIX|..] == tail;
  }

  lemma {:induction false} AsciiExactly(s: string)
    ensures IsAscii(s) <==> forall c :: c in s ==> c as int <= 127
  {
    forall i | 0 <= i < |s| ensures s[i] in s {
    }
  }

  /** An ASCII one that is no token of this key then reads back as blank. */
  lemma {:induction false} PrefixedSecretLost(vault: Vault, m: Model, field: string, tail: string, draw: Draw)
    requires LawfulModel(m) && field in m.secrets && field !in m.generated
    requires (forall c :: c in tail ==> c as int <= 127) && vault.open(tail) == None
    ensures var stored := Stored(vault, m, map[], map[field := Str("enc:v1:" + tail)], draw);
            stored.Some? && field in stored.value && stored.value[field] == Str("enc:v1:" + tail)
            && Readable(vault, stored.value, field) && Plain(vault, stored.value, field) == ""
  {
    AsciiExactly(tail);
    PrefixedStoredAsTyped(vault, m, field, tail, draw);
    PrefixedDecrypts(vault, Stored(vault, m, map[], map[field := Str(PREFIX + tail)], draw).value, field, tail);
  }

  /** One that is not all ASCII makes every later load raise, and every save that leaves the field alone. */
  lemma {:induction false} UnencodableSecretSticks(vault: Vault, m: Model, field: string, tail: string, draw: Draw,
                                                   later: Config, laterDraw: Draw)
    requires LawfulModel(m) && field in m.secrets && field !in m.generated
    requires (exists c :: c in tail && c as int > 127) && Unsubmitted(later, field)
    ensures var stored := Stored(vault, m, map[], map[field := Str("enc:v1:" + tail)], draw);
            stored.Some? && Load(vault, m, stored.value) == None
            && Stored(vault, m, stored.value, later, laterDraw) == None
  {
    AsciiExactly(tail);
    PrefixedStoredAsTyped(vault, m, field, tail, draw);
    PrefixedDecrypts(vault, Stored(vault, m, map[], map[field := Str(PREFIX + tail)], draw).value, field, tail);
  }

  /** A value validation accepts, or a default, is accepted again in the form validation gives it. */
  ghost predicate Revalidates(m: Model) {
    && (forall f, s :: m.normal(f, s).Some? ==> m.normal(f, m.normal(f, s).value).Some?)
    && (forall f :: f in m.defaults && m.defaults[f].Str? ==> m.normal(f, m.defaults[f].s).Some?)
  }

  lemma {:induction false} ValidatedAgain(m: Model, data: Config, f: string)
    requires Revalidates(m) && Validate(m, data).Some? && f in m.defaults
    ensures Validated(m, f, Validate(m, data).value[f]).Some?
  {
    if f in data { assert Validated(m, f, data[f]).Some?; }
  }

  lemma {:induction false} SavedValidates(vault: Vault, m: Model, existing: Config, data: Config, draw: Draw)
    requires LawfulModel(m) && Revalidates(m) && Stored(vault, m, existing, data, draw).Some?
    ensures Validate(m, Opened(vault, m, Stored(vault, m, existing, data, draw).value)).Some?
  {
    hide Stored, Merged, Validated, Plain, Revalidates;
    var stored := Stored(vault, m, existing, data, draw).value;
    var clear := Opened(vault, m, stored);
    forall f | f in m.defaults && f in clear ensures Validated(m, f, clear[f]).Some? {
      if f in m.secrets {
        SecretValidates(m, f, Plain(vault, stored, f));
      } else {
        StoredSettings(vault, m, existing, data, draw);
        StoredKeepsRest(vault, m, existing, data, draw, f);
        ValidatedAgain(m, Merged(vault, m, existing, data), f);
      }
    }
  }

  lemma {:induction false} SecretValidates(m: Model, f: string, s: string)
    requires LawfulModel(m) && f in m.secrets
    ensures f in m.defaults && Validated(m, f, Str(s)) == Some(Str(s))
  {
  }

  lemma {:induction false} StoredSettings(vault: Vault, m: Model, existing: Config, data: Config, draw: Draw)
    requires Stored(vault, m, existing, data, draw).Some?
    ensures Validate(m, Merged(vault, m, existing, data)).Some?
  {
    hide Validate, Merged;
  }

  /** A saved connection fails to load exactly when a new secret is the prefix and then something not all ASCII. */
  lemma {:induction false} SavedLoadsExactly(vault: Vault, m: Model, existing: Config, data: Config, draw: Draw)
    requires Ideal(vault) && LawfulModel(m) && Revalidates(m) && Stored(vault, m, existing, data, draw).Some?
    ensures Load(vault, m, Stored(vault, m, existing, data, draw).value).None? <==>
            exists f :: f in m.secrets && var s := NewSecret(vault, m, existing, data, draw, f);
                        IsEncrypted(s) && !IsAscii(s[|PREFIX|..])
  {
    hide Stored, Validate, NewSecret, Readable, Opened, LawfulModel, Ideal, Revalidates, IsAscii;
    var stored := Stored(vault, m, existing, data, draw).value;
    forall f | f in m.secrets
      ensures !Readable(vault, stored, f) <==>
              var s := NewSecret(vault, m, existing, data, draw, f); IsEncrypted(s) && !IsAscii(s[|PREFIX|..])
    {
      SavedSecret(vault, m, existing, data, draw, f);
    }
    SavedValidates(vault, m, existing, data, draw);
  }

  // --- saving what was loaded -------------------------------------------------------------------------

  /** Validation leaves every non-secret setting alone. */
  predicate FixedSettings(m: Model, settings: Config) {
    forall f :: f in m.defaults && f !in m.secrets ==> f in settings && Validated(m, f, settings[f]) == Some(settings[f])
  }

  /** Loadable, a fixed point of the validators, keys generated where asked for, secrets plain text. */
  predicate Settled(vault: Vault, m: Model, config: Config) {
    && Load(vault, m, config).Some?
    && FixedSettings(m, Load(vault, m, config).value)
    && PlainSecrets(vault, m, config)
    && forall f :: f in m.generated && TurnedOn(Load(vault, m, config).value, m.generated[f]) ==> Plain(vault, config, f) != ""
  }

  lemma {:induction false} LoadedSecret(vault: Vault, m: Model, config: Config, field: string)
    requires LawfulModel(m) && Load(vault, m, config).Some? && field in m.secrets
    ensures field in Load(vault, m, config).value
    ensures Load(vault, m, config).value[field] == Str(Plain(vault, config, field))
  {
    if field in config {
      assert Validated(m, field, Opened(vault, m, config)[field]) == Some(Str(Plain(vault, config, field)));
    }
  }

  /** Data carrying every non-secret setting as loaded, and no secret. */
  predicate Carries(m: Model, data: Config, settings: Config) {
    && (forall f :: f in m.secrets ==> Unsubmitted(data, f))
    && (forall f :: f in m.defaults && f !in m.secrets ==> f in data && f in settings && data[f] == settings[f])
  }

  lemma {:induction false} CarriedValidates(vault: Vault, m: Model, existing: Config, data: Config, settings: Config)
    requires LawfulModel(m) && FixedSettings(m, settings) && Carries(m, data, settings)
    ensures var r := Validate(m, Merged(vault, m, existing, data));
            && r.Some?
            && forall f :: f in m.defaults ==>
                 r.value[f] == if f in m.secrets then Str(Plain(vault, existing, f)) else settings[f]
  {
    var merged := Merged(vault, m, existing, data);
    forall f | f in m.defaults
      ensures f in merged
      ensures Validated(m, f, merged[f]) == Some(if f in m.secrets then Str(Plain(vault, existing, f)) else settings[f])
    {
    }
  }

  lemma {:induction false} FixedLoads(vault: Vault, m: Model, config: Config, settings: Config)
    requires LawfulModel(m) && FixedSettings(m, settings)
    requires settings.Keys == m.defaults.Keys == config.Keys
    requires forall f :: f in m.secrets ==> Readable(vault, config, f) && settings[f] == Str(Plain(vault, config, f))
    requires forall f :: f in m.defaults && f !in m.secrets ==> config[f] == settings[f]
    ensures Load(vault, m, config) == Some(settings)
  {
    var clear := Opened(vault, m, config);
    forall f | f in m.defaults ensures f in clear && Validated(m, f, clear[f]) == Some(settings[f]) {
    }
    assert Validate(m, clear).value == settings;
  }

  lemma {:induction false} StoredKeepsRest(vault: Vault, m: Model, existing: Config, data: Config, draw: Draw, f: string)
    requires LawfulModel(m) && Stored(vault, m, existing, data, draw).Some? && f in m.defaults && f !in m.secrets
    ensures var stored := Stored(vault, m, existing, data, draw).value;
            stored.Keys == m.defaults.Keys && stored[f] == Validate(m, Merged(vault, m, existing, data)).value[f]
  {
  }

  lemma {:induction false} LoadedKeys(vault: Vault, m: Model, config: Config)
    requires Load(vault, m, config).Some?
    ensures Load(vault, m, config).value.Keys == m.defaults.Keys
  {
    hide Opened, Readable;
  }

  lemma {:induction false} LoadedNeverRaises(vault: Vault, m: Model, config: Config, data: Config)
    requires LawfulModel(m) && Load(vault, m, config).Some?
    ensures !KeepingRaises(vault, m, config, data) && !GeneratingRaises(vault, m, config, Load(vault, m, config).value)
  {
    hide Readable, Opened, Validate, SecretsUnvalidated;
  }

  lemma {:induction false} ResaveValidates(vault: Vault, m: Model, config: Config, data: Config)
    requires LawfulModel(m) && Settled(vault, m, config)
    requires Carries(m, data, Load(vault, m, config).value)
    ensures Validate(m, Merged(vault, m, config, data)) == Load(vault, m, config)
    ensures !KeepingRaises(vault, m, config, data) && !GeneratingRaises(vault, m, config, Load(vault, m, config).value)
  {
    hide LawfulModel, Load, Merged, Carries, FixedSettings, PlainSecrets, Plain, Validate;
    var loaded := Load(vault, m, config).value;
    CarriedValidates(vault, m, config, data, loaded);
    var settings := Validate(m, Merged(vault, m, config, data)).value;
    LoadedKeys(vault, m, config);
    forall f | f in m.secrets ensures f in loaded && loaded[f] == Str(Plain(vault, config, f)) {
      LoadedSecret(vault, m, config, f);
    }
    forall f | f in m.defaults ensures settings[f] == loaded[f] {
    }
    assert settings == loaded;
    LoadedNeverRaises(vault, m, config, data);
  }

  lemma {:induction false} ResavedSecret(vault: Vault, m: Model, config: Config, data: Config, draw: Draw, f: string)
    requires Ideal(vault) && LawfulModel(m) && Settled(vault, m, config) && f in m.secrets
    requires Carries(m, data, Load(vault, m, config).value) && Stored(vault, m, config, data, draw).Some?
    ensures var stored := Stored(vault, m, config, data, draw).value;
            Readable(vault, stored, f) && Plain(vault, stored, f) == Plain(vault, config, f)
  {
    ResaveValidates(vault, m, config, data);
    SavedSecret(vault, m, config, data, draw, f);
    assert NewSecret(vault, m, config, data, draw, f) == Plain(vault, config, f);
  }

  /** Saving what was loaded changes nothing that a later load can see, secrets included. */
  lemma {:induction false} ResaveKeeps(vault: Vault, m: Model, config: Config, data: Config, draw: Draw)
    requires Ideal(vault) && LawfulModel(m) && Settled(vault, m, config)
    requires Carries(m, data, Load(vault, m, config).value)
    ensures Stored(vault, m, config, data, draw).Some?
    ensures Load(vault, m, Stored(vault, m, config, data, draw).value) == Load(vault, m, config)
  {
    var loaded := Load(vault, m, config).value;
    ResaveValidates(vault, m, config, data);
    var stored := Stored(vault, m, config, data, draw).value;
    forall f | f in m.secrets ensures Readable(vault, stored, f) && loaded[f] == Str(Plain(vault, stored, f)) {
      LoadedSecret(vault, m, config, f);
      ResavedSecret(vault, m, config, data, draw, f);
    }
    forall f | f in m.defaults && f !in m.secrets ensures stored[f] == loaded[f] {
      StoredKeepsRest(vault, m, config, data, draw, f);
    }
    FixedLoads(vault, m, stored, loaded);
  }

  /**
   The rendered form has every setting; a secret shows as the placeholder when there is one and blank
   when there is none, and everything else shows as loaded.
   */
  lemma {:induction false} FormShows(vault: Vault, m: Model, config: Config)
    requires LawfulModel(m) && Load(vault, m, config).Some?
    ensures var loaded := Load(vault, m, config).value;
            var form := Redacted(m, loaded);
            && form.Keys == m.defaults.Keys
            && forall f :: f in m.defaults ==>
                 form[f] == if f !in m.secrets then loaded[f] else if Plain(vault, config, f) == "" then Str("") else Str("********")
  {
    LoadedKeys(vault, m, config);
    forall f | f in m.secrets ensures f in Load(vault, m, config).value && Load(vault, m, config).value[f] == Str(Plain(vault, config, f)) {
      LoadedSecret(vault, m, config, f);
    }
  }

  /** What the form shows does not depend on what the secrets are, only on which there are. */
  lemma {:induction false} FormHidesSecrets(vault: Vault, m: Model, c1: Config, c2: Config)
    requires LawfulModel(m) && Load(vault, m, c1).Some? && Load(vault, m, c2).Some?
    requires forall f :: f in m.secrets ==> (Plain(vault, c1, f) == "" <==> Plain(vault, c2, f) == "")
    requires forall f :: f in m.defaults && f !in m.secrets ==>
               f in Load(vault, m, c1).value && f in Load(vault, m, c2).value && Load(vault, m, c1).value[f] == Load(vault, m, c2).value[f]
    ensures Redacted(m, Load(vault, m, c1).value) == Redacted(m, Load(vault, m, c2).value)
  {
    hide Load, Redacted, Plain, LawfulModel;
    FormShows(vault, m, c1);
    FormShows(vault, m, c2);
    assert forall f :: f in m.defaults ==> Redacted(m, Load(vault, m, c1).value)[f] == Redacted(m, Load(vault, m, c2).value)[f];
  }

  /** Submitting the rendered form untouched keeps every setting and every secret. */
  lemma {:induction false} UntouchedFormKeeps(vault: Vault, m: Model, config: Config, draw: Draw)
    requires Ideal(vault) && LawfulModel(m) && Settled(vault, m, config)
    ensures var form := Redacted(m, Load(vault, m, config).value);
            && Stored(vault, m, config, form, draw).Some?
            && Load(vault, m, Stored(vault, m, config, form, draw).value) == Load(vault, m, config)
  {
    ResaveKeeps(vault, m, config, Redacted(m, Load(vault, m, config).value), draw);
  }

  // --- export and import -----------------------------------------------------------------------------------

  /** No export holds a field that is a secret of any protocol; it holds every other setting. */
  lemma {:induction false} NoSecretExported<C>(schema: Schema, vault: Vault, slug: string, row: Row<C>)
    requires row.protocol in schema.models && Export(schema, vault, slug, row).Some?
    ensures var x := Export(schema, vault, slug, row).value;
            && x.config.Keys == schema.models[row.protocol].defaults.Keys - Excluded(schema.models)
            && forall name, f :: name in schema.models && f in schema.models[name].secrets ==> f !in x.config
  {
  }

  lemma {:induction false} ExportCarries<C>(schema: Schema, vault: Vault, slug: string, row: Row<C>)
    requires GoodModels(schema.models) && row.protocol in schema.models && Export(schema, vault, slug, row).Some?
    ensures var m := schema.models[row.protocol];
            Carries(m, Export(schema, vault, slug, row).value.config, Load(vault, m, row.config).value)
  {
    var m := schema.models[row.protocol];
    assert Excluded(schema.models) * m.defaults.Keys == m.secrets;
  }

  lemma {:induction false} BlankedValidates(models: Models, protocol: string, config: Config, settings: Config)
    requires GoodModels(models) && protocol in models
    requires FixedSettings(models[protocol], settings) && Carries(models[protocol], config, settings)
    ensures Validate(models[protocol], Blanked(models, config)).Some?
  {
    var m := models[protocol];
    assert Excluded(models) * m.defaults.Keys == m.secrets;
    forall f | f in m.defaults && f in Blanked(models, config)
      ensures Validated(m, f, Blanked(models, config)[f]).Some?
    {
      assert f in Excluded(models) <==> f in m.secrets;
    }
  }

  /**
   Which connection a definition is for: its trimmed, lower-cased slug and trimmed protocol. It is refused
   for an unknown protocol, a blank slug, settings that do not validate with the secrets blank, or a
   connection of another protocol under that slug, in this order.
   */
  lemma {:induction false} TargetExactly<C>(schema: Schema, rows: map<string, Row<C>>, data: Exported<C>, lower: string -> string,
                                            b1: string, slug: string, a1: string, b2: string, protocol: string, a2: string)
    requires AllSpace(b1 + a1) && AllSpace(b2 + a2) && Trimmed(slug) && Trimmed(protocol)
    requires data.slug == b1 + slug + a1 && data.protocol == b2 + protocol + a2
    ensures Target(schema, rows, data, lower) ==
            if protocol !in schema.models then Err(UnknownProtocol)
            else if lower(slug) == "" then Err(SlugRequired)
            else if Validate(schema.models[protocol], data.config + map f | f in Excluded(schema.models) :: Str("")).None?
            then Err(InvalidConfig)
            else if lower(slug) in rows && rows[lower(slug)].protocol != protocol then Err(ProtocolChange)
            else Ok((lower(slug), protocol))
  {
    hide Validate, Excluded;
    forall i | 0 <= i < |b1| ensures IsSpace(b1[i]) { assert b1[i] == (b1 + a1)[i]; }
    forall i | 0 <= i < |a1| ensures IsSpace(a1[i]) { assert a1[i] == (b1 + a1)[|b1| + i]; }
    forall i | 0 <= i < |b2| ensures IsSpace(b2[i]) { assert b2[i] == (b2 + a2)[i]; }
    forall i | 0 <= i < |a2| ensures IsSpace(a2[i]) { assert a2[i] == (b2 + a2)[|b2| + i]; }
    StripGaps(b1, slug, a1);
    StripGaps(b2, protocol, a2);
  }

  /** A row with a canonical slug and protocol name, every portable column, and settled settings. */
  predicate Portable<C>(schema: Schema, vault: Vault, slug: string, row: Row<C>, lower: string -> string) {
    && slug != "" && Strip(slug) == slug && lower(slug) == slug
    && row.protocol in schema.models && Strip(row.protocol) == row.protocol
    && "name" in schema.portable && schema.portable <= row.columns.Keys
    && Settled(vault, schema.models[row.protocol], row.config)
  }

  lemma {:induction false} ExportTargets<C>(schema: Schema, vault: Vault, rows: map<string, Row<C>>, slug: string, row: Row<C>, lower: string -> string)
    requires GoodModels(schema.models) && Portable(schema, vault, slug, row, lower)
    requires slug in rows ==> rows[slug].protocol == row.protocol
    ensures Target(schema, rows, Export(schema, vault, slug, row).value, lower) == Ok((slug, row.protocol))
  {
    var x := Export(schema, vault, slug, row).value;
    ExportCarries(schema, vault, slug, row);
    BlankedValidates(schema.models, row.protocol, x.config, Load(vault, schema.models[row.protocol], row.config).value);
  }

  lemma {:induction false} PortableExports<C>(schema: Schema, vault: Vault, slug: string, row: Row<C>, lower: string -> string)
    requires GoodModels(schema.models) && Portable(schema, vault, slug, row, lower)
    ensures var m, x := schema.models[row.protocol], Export(schema, vault, slug, row);
            && LawfulModel(m) && Settled(vault, m, row.config) && "name" in schema.portable
            && x.Some? && x.value.protocol == row.protocol && x.value.slug == slug
            && x.value.columns == (map c | c in schema.portable && c in row.columns :: row.columns[c])
            && schema.portable <= row.columns.Keys
            && FixedSettings(m, Load(vault, m, row.config).value)
  {
    hide FixedSettings, PlainSecrets, Opened, Validate;
  }

  lemma {:induction false} ImportedPortable<C>(schema: Schema, columns: map<string, C>, from: map<string, C>, carried: map<string, C>)
    requires schema.portable <= from.Keys
    requires carried == (map c | c in schema.portable && c in from :: from[c])
    ensures var r := ImportedColumns(schema, columns, carried);
            && schema.portable <= r.Keys && (forall c :: c in schema.portable ==> r[c] == from[c])
            && (columns == from ==> r == from)
  {
  }

  /** Importing a connection's export onto itself keeps its columns and everything a load returns. */
  lemma {:induction false} ImportOntoItself<C>(schema: Schema, vault: Vault, rows: map<string, Row<C>>, slug: string,
                            defaults: map<string, C>, lower: string -> string, draw: Draw)
    requires Ideal(vault) && GoodModels(schema.models) && slug in rows && Portable(schema, vault, slug, rows[slug], lower)
    ensures var row, m := rows[slug], schema.models[rows[slug].protocol];
            var r := Import(schema, vault, rows, Export(schema, vault, slug, row).value, defaults, lower, draw);
            && r.Ok? && r.value.Keys == rows.Keys
            && r.value[slug].protocol == row.protocol && r.value[slug].columns == row.columns
            && Load(vault, m, r.value[slug].config) == Load(vault, m, row.config)
            && forall other :: other in rows && other != slug ==> r.value[other] == rows[other]
  {
    var row := rows[slug];
    var x := Export(schema, vault, slug, row).value;
    PortableExports(schema, vault, slug, row, lower);
    ExportTargets(schema, vault, rows, slug, row, lower);
    ExportCarries(schema, vault, slug, row);
    hide Portable, GoodModels, Load, Stored, Carries, Export, Target, ImportedColumns, Settled;
    ResaveKeeps(vault, schema.models[row.protocol], row.config, x.config, draw);
    ImportedPortable(schema, row.columns, row.columns, x.columns);
  }

  lemma {:induction false} FreshNeverRaises(vault: Vault, m: Model, data: Config, settings: Config)
    ensures !KeepingRaises(vault, m, map[], data) && !GeneratingRaises(vault, m, map[], settings)
  {
  }

  lemma {:induction false} FreshStored(vault: Vault, m: Model, data: Config, settings: Config, draw: Draw)
    requires LawfulModel(m) && FixedSettings(m, settings) && Carries(m, data, settings)
    ensures var r := Stored(vault, m, map[], data, draw);
            r.Some? && r.value.Keys == m.defaults.Keys
            && forall f :: f in m.defaults && f !in m.secrets ==> r.value[f] == settings[f]
  {
    hide Validate, Merged, Sealed, WithKeys, Carries, KeepingRaises, GeneratingRaises;
    CarriedValidates(vault, m, map[], data, settings);
    FreshNeverRaises(vault, m, data, Validate(m, Merged(vault, m, map[], data)).value);
    StoredKeys(vault, m, map[], data, draw);
    forall f | f in m.defaults && f !in m.secrets
      ensures Stored(vault, m, map[], data, draw).value[f] == settings[f]
    {
      StoredKeepsRest(vault, m, map[], data, draw, f);
    }
  }

  lemma {:induction false} StoredKeys(vault: Vault, m: Model, existing: Config, data: Config, draw: Draw)
    requires Stored(vault, m, existing, data, draw).Some?
    ensures Stored(vault, m, existing, data, draw).value.Keys == m.defaults.Keys
  {
    hide SealedValue, Generates, KeepingRaises, GeneratingRaises;
  }

  lemma {:induction false} FreshLoads(vault: Vault, m: Model, data: Config, settings: Config, draw: Draw)
    requires Ideal(vault) && LawfulModel(m) && FixedSettings(m, settings) && Carries(m, data, settings)
    requires settings.Keys == m.defaults.Keys && GoodDraw(m, draw)
    ensures Stored(vault, m, map[], data, draw).Some?
    ensures var loaded := Load(vault, m, Stored(vault, m, map[], data, draw).value);
            loaded.Some? && forall f :: f in m.defaults && f !in m.secrets ==> loaded.value[f] == settings[f]
  {
    FreshStored(vault, m, data, settings, draw);
    var stored := Stored(vault, m, map[], data, draw).value;
    forall f | f in m.secrets ensures Readable(vault, stored, f) {
      FreshSecret(vault, m, data, draw, f);
    }
    hide Stored, Load, Validate, Plain, Readable, Carries, Validated;
    var loaded: Config := map f | f in m.defaults :: if f in m.secrets then Str(Plain(vault, stored, f)) else settings[f];
    assert forall f :: f in m.secrets ==> f in m.defaults;
    FixedLoads(vault, m, stored, loaded);
  }

  lemma {:induction false} FreshSecret(vault: Vault, m: Model, data: Config, draw: Draw, f: string)
    requires Ideal(vault) && LawfulModel(m) && GoodDraw(m, draw) && f in m.secrets && Unsubmitted(data, f)
    requires Stored(vault, m, map[], data, draw).Some?
    ensures Readable(vault, Stored(vault, m, map[], data, draw).value, f)
  {
    hide Stored, Readable, Validate, Merged;
    SavedSecret(vault, m, map[], data, draw, f);
  }

  /** The settings an export carries depend on the settings that are not secret only. */
  lemma {:induction false} SettingsSeen(m: Model, excluded: set<string>, l1: Config, l2: Config)
    requires l1.Keys == l2.Keys == m.defaults.Keys && excluded * m.defaults.Keys == m.secrets
    requires forall f :: f in m.defaults && f !in m.secrets ==> l1[f] == l2[f]
    ensures l1 - excluded == l2 - excluded
  {
  }

  lemma {:induction false} ColumnsSeen<C>(portable: set<string>, c1: map<string, C>, c2: map<string, C>)
    requires portable <= c1.Keys && portable <= c2.Keys && forall c :: c in portable ==> c1[c] == c2[c]
    ensures (map c | c in portable && c in c1 :: c1[c]) == (map c | c in portable && c in c2 :: c2[c])
  {
  }

  /** An export sees only the portable columns and the settings that are not secret. */
  lemma {:induction false} ExportSees<C>(schema: Schema, vault: Vault, slug: string, r1: Row<C>, r2: Row<C>)
    requires GoodModels(schema.models) && r1.protocol in schema.models && r1.protocol == r2.protocol
    requires schema.portable <= r1.columns.Keys && schema.portable <= r2.columns.Keys
    requires forall c :: c in schema.portable ==> r1.columns[c] == r2.columns[c]
    requires var m := schema.models[r1.protocol];
             var l1, l2 := Load(vault, m, r1.config), Load(vault, m, r2.config);
             && l1.Some? && l2.Some?
             && forall f :: f in m.defaults && f !in m.secrets ==> l1.value[f] == l2.value[f]
    ensures Export(schema, vault, slug, r1) == Export(schema, vault, slug, r2)
  {
    var m := schema.models[r1.protocol];
    assert Excluded(schema.models) * m.defaults.Keys == m.secrets;
    hide GoodModels, Excluded, Opened, Validated;
    var l1, l2 := Load(vault, m, r1.config).value, Load(vault, m, r2.config).value;
    SettingsSeen(m, Excluded(schema.models), l1, l2);
    ColumnsSeen(schema.portable, r1.columns, r2.columns);
  }

  /** Importing an export where the slug is unknown creates a connection with the same export. */
  lemma {:induction false} ImportElsewhere<C>(schema: Schema, vault: Vault, slug: string, row: Row<C>, rows: map<string, Row<C>>,
                           defaults: map<string, C>, lower: string -> string, draw: Draw)
    requires Ideal(vault) && GoodModels(schema.models) && Portable(schema, vault, slug, row, lower) && slug !in rows
    requires GoodDraw(schema.models[row.protocol], draw)
    ensures var x := Export(schema, vault, slug, row);
            var r := Import(schema, vault, rows, x.value, defaults, lower, draw);
            r.Ok? && slug in r.value && r.value[slug].protocol == row.protocol && Export(schema, vault, slug, r.value[slug]) == x
  {
    var m := schema.models[row.protocol];
    var x := Export(schema, vault, slug, row).value;
    PortableExports(schema, vault, slug, row, lower);
    ExportTargets(schema, vault, rows, slug, row, lower);
    ExportCarries(schema, vault, slug, row);
    LoadedKeys(vault, m, row.config);
    hide Portable, GoodModels, Load, Stored, Carries, Export, Target, ImportedColumns, FixedSettings;
    FreshLoads(vault, m, x.config, Load(vault, m, row.config).value, draw);
    ImportedPortable(schema, defaults, row.columns, x.columns);
    var written := Written(schema, vault, Row(row.protocol, defaults, map[]), x, draw);
    assert written.Ok?;
    ExportSees(schema, vault, slug, written.value, row);
  }

  // --- when settings are fixed points --------------------------------------------------------------------------

  /** Among the text settings of OIDC only the issuer can move under validation, of SAML the certificates. */
  lemma {:induction false} FixedTextExactly(field: string, s: string)
    ensures OidcNormal(field, s) == Some(s) <==>
              (field == "issuer" ==> PlainIssuer(s))
              && (field == "prompt" ==> s in {"", "login", "consent", "select_account", "none"})
    ensures SamlNormal(field, s) == Some(s) <==> (field in {"idp_x509_cert", "sp_x509_cert"} ==> NoSpace(s))
  {
    IssuerFixedExactly(s);
    CertFixedExactly(s);
  }

  lemma {:induction false} OidcRevalidates()
    ensures Revalidates(OIDC)
  {
    hide StripWellknown;
  }

  lemma {:induction false} SamlRevalidates()
    ensures Revalidates(SAML)
  {
    hide NormaliseCert;
  }

  /** The laws above apply to the deployed models. */
  lemma {:induction false} DeployedLawful()
    ensures GoodModels(DEPLOYED.models) && LawfulModel(OIDC) && LawfulModel(SAML) && "name" in DEPLOYED.portable
    ensures Revalidates(OIDC) && Revalidates(SAML)
    ensures DEPLOYED.models == SETTINGS_MODELS
    ensures DEPLOYED.portable ==
            {"name", "enabled", "role_claim", "role_rules", "role_source", "default_role"}
            + {"subject_claim", "email_claim", "name_claim", "expected_role", "expectations"}
            + {"stepup_claim", "stepup_operator", "stepup_value", "stepup_acr_values", "stepup_claims_challenge"}
  {
    hide GoodModels, GoodModel, SecretsUnvalidated, Revalidates;
    DeployedModelsGood();
    OidcGood();
    SamlGood();
    OidcRevalidates();
    SamlRevalidates();
  }
}
