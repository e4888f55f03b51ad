/**
 Loading, saving, exporting and importing identity provider connections
 (app/auth/connections.py, app/crypto.py).
 */
module Connections {
  import opened Text
  import opened IdpSettings

  // --- secrets at rest --------------------------------------------------------------------

  const PREFIX := "enc:v1:"
  const PLACEHOLDER := "********"

  /** The app key's cipher: sealing is randomised by a nonce, opening fails on a foreign token. */
  datatype Vault = Vault(seal: (string, nat) -> string, open: string -> Option<string>)

  predicate IsAscii(s: string) {
    forall i :: 0 <= i < |s| ==> s[i] as int < 128
  }

  /** Tokens are ASCII and open to what was sealed. */
  ghost predicate Ideal(vault: Vault) {
    forall x, n :: IsAscii(vault.seal(x, n)) && vault.open(vault.seal(x, n)) == Some(x)
  }

  predicate IsEncrypted(stored: string) {
    PREFIX <= stored
  }

  function Encrypt(vault: Vault, plain: string, nonce: nat): string {
    if plain == "" then "" else PREFIX + vault.seal(plain, nonce)
  }

  /** A text, a token that does not open, or an exception: only ASCII can be handed to the cipher. */
  datatype Decrypted = Clear(s: string) | Rejected | Raised

  function Decrypt(vault: Vault, stored: string): Decrypted {
    if !IsEncrypted(stored) then Clear(stored)
    else
      var token := stored[|PREFIX|..];
      if !IsAscii(token) then Raised
      else match vault.open(token) case None => Rejected case Some(s) => Clear(s)
  }

  /** Decrypting the stored field does not raise. */
  predicate Readable(vault: Vault, config: Config, field: string) {
    field in config && config[field].Str? ==> Decrypt(vault, config[field].s) != Raised
  }

  /** `decrypt(config.get(field)) or ""`, where it does not raise */
  function Plain(vault: Vault, config: Config, field: string): string {
    if field !in config || !config[field].Str? then ""
    else match Decrypt(vault, config[field].s) case Clear(s) => s case _ => ""
  }

  lemma {:induction false} DecryptEncrypt(vault: Vault, plain: string, nonce: nat)
    requires Ideal(vault)
    ensures Decrypt(vault, Encrypt(vault, plain, nonce)) == Clear(plain)
    ensures plain != "" ==> Encrypt(vault, plain, nonce) == "enc:v1:" + vault.seal(plain, nonce)
  {
    if plain != "" {
      var token := vault.seal(plain, nonce);
      assert (PREFIX + token)[|PREFIX|..] == token;
    }
  }

  // --- load_settings and store_settings --------------------------------------------------------

  function Opened(vault: Vault, m: Model, config: Config): Config {
    map f | f in config :: if f in m.secrets then Str(Plain(vault, config, f)) else config[f]
  }

  /** None: a stored secret raises, or the settings do not validate. */
  function Load(vault: Vault, m: Model, config: Config): Option<Config> {
    if exists f :: f in m.secrets && !Readable(vault, config, f) then None
    else Validate(m, Opened(vault, m, config))
  }

  /** Missing, blank and placeholder all mean "keep the stored secret". */
  predicate Unsubmitted(data: Config, field: string) {
    field !in data || data[field] == Str("") || data[field] == Str(PLACEHOLDER)
  }

  function Merged(vault: Vault, m: Model, existing: Config, data: Config): Config {
    MergedOver(vault, m.secrets, existing, data)
  }

  /** The submitted data with the stored plaintext for those of the fields that were not submitted. */
  function MergedOver(vault: Vault, fields: set<string>, existing: Config, data: Config): Config {
    data + map f | f in fields && Unsubmitted(data, f) :: Str(Plain(vault, existing, f))
  }

  lemma {:induction false} MergeOne(vault: Vault, fields: set<string>, existing: Config, data: Config, field: string)
    requires field !in fields
    ensures var was, becomes := MergedOver(vault, fields, existing, data), MergedOver(vault, fields + {field}, existing, data);
            becomes == if Unsubmitted(data, field) then was[field := Str(Plain(vault, existing, field))] else was
  {
    hide Plain, Unsubmitted;
  }

  lemma {:induction false} MergeLeaves(vault: Vault, fields: set<string>, existing: Config, data: Config, field: string)
    requires field !in fields
    ensures Unsubmitted(MergedOver(vault, fields, existing, data), field) <==> Unsubmitted(data, field)
  {
    hide Plain;
  }

  lemma {:induction false} NothingMerged(vault: Vault, existing: Config, data: Config)
    ensures MergedOver(vault, {}, existing, data) == data
  {
  }

  /** What one save draws at random: a fresh key and a nonce per field. */
  datatype Draw = Draw(key: string -> string, nonce: string -> nat)

  predicate TurnedOn(settings: Config, flag: string) {
    flag in settings && settings[flag] == Flag(true)
  }

  /** The app generates a key when its feature is on and no key is stored yet. */
  predicate Generates(vault: Vault, m: Model, existing: Config, settings: Config, field: string) {
    field in m.generated && Plain(vault, existing, field) == "" && TurnedOn(settings, m.generated[field])
  }

  function WithKeys(vault: Vault, m: Model, existing: Config, settings: Config, draw: Draw): Config {
    map f | f in settings ::
      if Generates(vault, m, existing, settings, f) then Str(draw.key(f)) else settings[f]
  }

  function SealedValue(vault: Vault, v: Value, nonce: nat): Value {
    if v.Str? && v.s != "" && !IsEncrypted(v.s) then Str(Encrypt(vault, v.s, nonce)) else v
  }

  function Sealed(vault: Vault, m: Model, settings: Config, draw: Draw): Config {
    map f | f in settings :: if f in m.secrets then SealedValue(vault, settings[f], draw.nonce(f)) else settings[f]
  }

  /** Decrypting a stored secret to keep raises. */
  predicate KeepingRaises(vault: Vault, m: Model, existing: Config, data: Config) {
    exists f :: f in m.secrets && Unsubmitted(data, f) && !Readable(vault, existing, f)
  }

  /** Looking whether there is a key already raises. */
  predicate GeneratingRaises(vault: Vault, m: Model, existing: Config, settings: Config) {
    exists f :: f in m.generated && TurnedOn(settings, m.generated[f]) && !Readable(vault, existing, f)
  }

  /** The configuration `store_settings` writes; None is an exception, which writes nothing. */
  function Stored(vault: Vault, m: Model, existing: Config, data: Config, draw: Draw): Option<Config> {
    if KeepingRaises(vault, m, existing, data) then None
    else match Validate(m, Merged(vault, m, existing, data))
         case None => None
         case Some(settings) =>
           if GeneratingRaises(vault, m, existing, settings) then None
           else Some(Sealed(vault, m, WithKeys(vault, m, existing, settings, draw), draw))
  }

  /** `redacted_config`: the form never holds a secret, only whether there is one. */
  function Redacted(m: Model, settings: Config): Config {
    map f | f in settings ::
      if f in m.secrets then Str(if settings[f] == Str("") then "" else PLACEHOLDER) else settings[f]
  }

  // --- the store -----------------------------------------------------------------------------------

  /** One connection; its slug is its key, and C stands for the type of a column's value. */
  datatype Row<C> = Row(protocol: string, columns: map<string, C>, config: Config)

  /** The settings models and the columns an export carries besides slug and protocol. */
  datatype Schema = Schema(models: Models, portable: set<string>)

  const DEPLOYED := Schema(SETTINGS_MODELS, {
    "name", "enabled", "role_claim", "role_rules", "role_source", "default_role", "subject_claim",
    "email_claim", "name_claim", "expected_role", "expectations", "stepup_claim", "stepup_operator",
    "stepup_value", "stepup_acr_values", "stepup_claims_challenge"})

  datatype Exported<C> = Exported(
    slug: string,
    protocol: string,
    columns: map<string, C>,
    config: Config,
    secretsExcluded: set<string>)

  datatype ImportError = UnknownProtocol | SlugRequired | InvalidConfig | ProtocolChange | NameRequired

  /** `export_connection`; None when the stored settings do not load. */
  function Export<C>(schema: Schema, vault: Vault, slug: string, row: Row<C>): Option<Exported<C>>
    requires row.protocol in schema.models
  {
    var excluded := Excluded(schema.models);
    match Load(vault, schema.models[row.protocol], row.config)
    case None => None
    case Some(settings) =>
      Some(Exported(slug, row.protocol,
                    map c | c in schema.portable && c in row.columns :: row.columns[c],
                    settings - excluded, excluded * settings.Keys))
  }

  function Blanked(models: Models, config: Config): Config {
    config + map f | f in Excluded(models) :: Str("")
  }

  /** Portable columns the definition carries replace those of the row; the others stay. */
  function ImportedColumns<C>(schema: Schema, columns: map<string, C>, data: map<string, C>): map<string, C> {
    columns + map c | c in schema.portable && c in data :: data[c]
  }

  /** The checks `import_connection` makes before it writes: which connection, of which protocol. */
  function Target<C>(schema: Schema, rows: map<string, Row<C>>, data: Exported<C>, lower: string -> string)
    : (r: Result<(string, string), ImportError>)
    ensures r.Ok? ==> r.value.1 in schema.models && (r.value.0 in rows ==> rows[r.value.0].protocol == r.value.1)
  {
    var protocol := Strip(data.protocol);
    if protocol !in schema.models then Err(UnknownProtocol)
    else
      var slug := lower(Strip(data.slug));
      if slug == "" then Err(SlugRequired)
      else if Validate(schema.models[protocol], Blanked(schema.models, data.config)).None? then Err(InvalidConfig)
      else if slug in rows && rows[slug].protocol != protocol then Err(ProtocolChange)
      else Ok((slug, protocol))
  }

  /** Writing a definition into one row; a connection cannot be committed without a name. */
  function Written<C>(schema: Schema, vault: Vault, row: Row<C>, data: Exported<C>, draw: Draw)
    : (r: Result<Row<C>, ImportError>)
    requires row.protocol in schema.models
    ensures r.Ok? ==> r.value.protocol == row.protocol
  {
    var columns := ImportedColumns(schema, row.columns, data.columns);
    match Stored(vault, schema.models[row.protocol], row.config, data.config, draw)
    case None => Err(InvalidConfig)
    case Some(config) => if "name" !in columns then Err(NameRequired) else Ok(Row(row.protocol, columns, config))
  }

  /** `import_connection`; a new row starts from the column defaults, and name has none. */
  function Import<C>(schema: Schema, vault: Vault, rows: map<string, Row<C>>, data: Exported<C>,
                     defaults: map<string, C>, lower: string -> string, draw: Draw)
    : Result<map<string, Row<C>>, ImportError>
  {
    match Target(schema, rows, data, lower)
    case Err(e) => Err(e)
    case Ok((slug, protocol)) =>
      var row := if slug in rows then rows[slug] else Row(protocol, defaults, map[]);
      (match Written(schema, vault, row, data, draw)
       case Err(e) => Err(e)
       case Ok(after) => Ok(rows[slug := after]))
  }

  class Registry<C> {
    const schema: Schema
    const vault: Vault
    var rows: map<string, Row<C>>

    constructor (schema: Schema, vault: Vault)
      ensures this.schema == schema && this.vault == vault && rows == map[]
    {
      this.schema := schema;
      this.vault := vault;
      rows := map[];
    }

    /** Every stored connection has a known protocol. */
    ghost predicate Valid()
      reads this
    {
      forall slug :: slug in rows ==> rows[slug].protocol in schema.models
    }

    /** `store_settings` on one connection. */
    method StoreSettings(slug: string, data: Config, draw: Draw) returns (ok: bool)
      requires Valid() && slug in rows
      modifies this
      ensures Valid()
      ensures var was := old(rows)[slug];
              var config := Stored(vault, schema.models[was.protocol], was.config, data, draw);
              && ok == config.Some?
              && rows == if ok then old(rows)[slug := was.(config := config.value)] else old(rows)
    {
      var config := PrepareSettings(schema.models[rows[slug].protocol], rows[slug].config, data, draw);
      if config.None? {
        return false;
      }
      rows := rows[slug := rows[slug].(config := config.value)];
      return true;
    }

    method PrepareSettings(m: Model, existing: Config, data: Config, draw: Draw) returns (r: Option<Config>)
      ensures r == Stored(vault, m, existing, data, draw)
    {
      var merged := MergeSecrets(m, existing, data);
      if merged.None? {
        return None;
      }
      var validated := Validate(m, merged.value);
      if validated.None? || GeneratingRaises(vault, m, existing, validated.value) {
        return None;
      }
      var settings := WithKeys(vault, m, existing, validated.value, draw);
      var stored := SealSecrets(m, settings, draw);
      return Some(stored);
    }

    /** None when decrypting a secret to keep raises. */
    method MergeSecrets(m: Model, existing: Config, data: Config) returns (r: Option<Config>)
      ensures r == if KeepingRaises(vault, m, existing, data) then None else Some(Merged(vault, m, existing, data))
    {
      hide MergedOver, Readable, Plain;
      var merged := data;
      var left := m.secrets;
      NothingMerged(vault, existing, data);
      assert m.secrets - left == {};
      while left != {}
        invariant left <= m.secrets && merged == MergedOver(vault, m.secrets - left, existing, data)
        invariant forall f :: f in m.secrets - left && Unsubmitted(data, f) ==> Readable(vault, existing, f)
        decreases left
      {
        var field :| field in left;
        MergeOne(vault, m.secrets - left, existing, data, field);
        MergeLeaves(vault, m.secrets - left, existing, data, field);
        assert m.secrets - (left - {field}) == (m.secrets - left) + {field};
        if Unsubmitted(merged, field) {
          if !Readable(vault, existing, field) {
            return None;
          }
          merged := merged[field := Str(Plain(vault, existing, field))];
        }
        left := left - {field};
      }
      assert m.secrets - left == m.secrets;
      r := Some(merged);
    }

    method SealSecrets(m: Model, settings: Config, draw: Draw) returns (stored: Config)
      ensures stored == Sealed(vault, m, settings, draw)
    {
      stored := settings;
      var left := m.secrets;
      while left != {}
        invariant left <= m.secrets && stored.Keys == settings.Keys
        invariant forall f :: f in settings ==>
          stored[f] == if f in m.secrets - left then SealedValue(vault, settings[f], draw.nonce(f)) else settings[f]
        decreases left
      {
        var field :| field in left;
        if field in stored {
          stored := stored[field := SealedValue(vault, stored[field], draw.nonce(field))];
        }
        left := left - {field};
      }
    }

    method MergeColumns(was: map<string, C>, data: map<string, C>) returns (columns: map<string, C>)
      ensures columns == ImportedColumns(schema, was, data)
    {
      columns := was;
      var left := schema.portable;
      while left != {}
        invariant left <= schema.portable
        invariant forall c :: c in columns <==> c in was || (c in schema.portable - left && c in data)
        invariant forall c :: c in columns ==>
          columns[c] == if c in schema.portable - left && c in data then data[c] else was[c]
        decreases left
      {
        var key :| key in left;
        if key in data {
          columns := columns[key := data[key]];
        }
        left := left - {key};
      }
    }

    method FindTarget(data: Exported<C>, lower: string -> string) returns (r: Result<(string, string), ImportError>)
      ensures r == Target(schema, rows, data, lower)
    {
      var protocol := Strip(data.protocol);
      if protocol !in schema.models {
        return Err(UnknownProtocol);
      }
      var slug := lower(Strip(data.slug));
      if slug == "" {
        return Err(SlugRequired);
      }
      if Validate(schema.models[protocol], Blanked(schema.models, data.config)).None? {
        return Err(InvalidConfig);
      }
      if slug in rows && rows[slug].protocol != protocol {
        return Err(ProtocolChange);
      }
      return Ok((slug, protocol));
    }

    method WriteRow(row: Row<C>, data: Exported<C>, draw: Draw) returns (r: Result<Row<C>, ImportError>)
      requires row.protocol in schema.models
      ensures r == Written(schema, vault, row, data, draw)
    {
      var columns := MergeColumns(row.columns, data.columns);
      var config := PrepareSettings(schema.models[row.protocol], row.config, data.config, draw);
      if config.None? {
        return Err(InvalidConfig);
      }
      if "name" !in columns {
        return Err(NameRequired);
      }
      return Ok(Row(row.protocol, columns, config.value));
    }

    /** `import_connection`: true for a new connection; a rejected definition leaves the store as it was. */
    method ImportConnection(data: Exported<C>, defaults: map<string, C>, lower: string -> string, draw: Draw)
      returns (r: Result<bool, ImportError>)
      requires Valid()
      modifies this
      ensures Valid()
      ensures match Import(schema, vault, old(rows), data, defaults, lower, draw)
              case Err(e) => r == Err(e) && rows == old(rows)
              case Ok(after) => r == Ok(Target(schema, old(rows), data, lower).value.0 !in old(rows)) && rows == after
    {
      hide Target, Written;
      var target := FindTarget(data, lower);
      if target.Err? {
        return Err(target.error);
      }
      var (slug, protocol) := target.value;
      var created := slug !in rows;
      var row := if created then Row(protocol, defaults, map[]) else rows[slug];
      assert row.protocol == protocol;
      var after := WriteRow(row, data, draw);
      assert Import(schema, vault, rows, data, defaults, lower, draw) ==
             match after case Err(e) => Err(e) case Ok(written) => Ok(rows[slug := written]);
      if after.Err? {
        return Err(after.error);
      }
      rows := rows[slug := after.value];
      return Ok(created);
    }
  }
}
