/** Lead saving in script.js: `tryInitFirebase` (lines 10-23) turns saving on
    only for a configuration with an API key and only if the SDK loads, and
    `saveLead` (lines 25-35) writes a lead to the `leads` collection only
    when saving is on. The SDK's loading and the database's write are given
    as outcomes: the model decides nothing about the network. */
module Store {
  import opened Wrappers

  /** `window.FIREBASE_CONFIG`, reduced to the field the guard reads. */
  datatype Config = Config(apiKey: Option<string>)

  /** `!firebaseConfig || !firebaseConfig.apiKey` is false: a configuration
      is present and its API key is a non-empty string. */
  predicate Usable(config: Option<Config>) {
    config.Some? && config.value.apiKey.Some? && |config.value.apiKey.value| > 0
  }

  /** The Firestore handle `getFirestore(initializeApp(config))`. */
  datatype Db = Db(config: Config)

  /** The module-level `db` and `canSave`. */
  datatype Gateway = Gateway(db: Option<Db>, canSave: bool)

  /** `db = null`, `canSave = false` at load. */
  const Offline: Gateway := Gateway(None, false)

  /** `userData`: the fields the conversation has filled in so far. */
  datatype Lead = Lead(name: Option<string>, email: Option<string>, message: Option<string>)

  /** `userData = {}`. */
  const NoData: Lead := Lead(None, None, None)

  /** `tryInitFirebase()`, given whether the SDK imports, `initializeApp`
      and `getFirestore` all succeed. Every step that can throw comes
      before `db` is assigned, so a failure leaves `db` as it was. */
  function TryInit(config: Option<Config>, sdkLoads: bool, g: Gateway): (g': Gateway)
    ensures !Usable(config) ==> g' == g
    ensures Usable(config) && sdkLoads ==> g'.canSave && g'.db == Some(Db(config.value))
    ensures Usable(config) && !sdkLoads ==> !g'.canSave && g'.db == g.db
  {
    if !Usable(config) then g
    else if sdkLoads then Gateway(Some(Db(config.value)), true)
    else Gateway(g.db, false)
  }

  /** `saveLead(data)`, given whether `addDoc` succeeds, with the `leads`
      collection before and after: whether it resolved to `true`, and the
      collection. A rejected write adds nothing. */
  function SaveLead(g: Gateway, leads: seq<Lead>, data: Lead, writes: bool): (r: (bool, seq<Lead>))
    ensures r.0 <==> g.canSave && g.db.Some? && writes
    ensures r.0 ==> r.1 == leads + [data]
    ensures !r.0 ==> r.1 == leads
  {
    if !g.canSave || g.db.None? then (false, leads)
    else if writes then (true, leads + [data])
    else (false, leads)
  }

  /** Saving is on only with a usable configuration and the database
      built from it. */
  predicate Sound(config: Option<Config>, g: Gateway) {
    g.canSave ==> Usable(config) && g.db == Some(Db(config.value))
  }

  /** Initialising keeps the gateway sound. */
  lemma TryInitSound(config: Option<Config>, sdkLoads: bool, g: Gateway)
    requires Sound(config, g)
    ensures Sound(config, TryInit(config, sdkLoads, g))
  {
  }

  /** In a sound gateway the `!db` half of the guard never decides anything:
      `canSave` alone does. */
  lemma DbGuardRedundant(config: Option<Config>, g: Gateway, leads: seq<Lead>, data: Lead, writes: bool)
    requires Sound(config, g)
    ensures SaveLead(g, leads, data, writes).0 <==> g.canSave && writes
  {
  }

  /** After the one call at load, a lead is saved exactly when the
      configuration has an API key, the SDK loaded and the write succeeded;
      otherwise the collection is untouched. */
  lemma SaveAfterInit(config: Option<Config>, sdkLoads: bool, leads: seq<Lead>, data: Lead, writes: bool)
    ensures var r := SaveLead(TryInit(config, sdkLoads, Offline), leads, data, writes);
            && (r.0 <==> Usable(config) && sdkLoads && writes)
            && r.1 == if r.0 then leads + [data] else leads
  {
  }

  /** A configuration without a usable API key never turns saving on, however
      often initialisation runs. */
  lemma {:induction false} NoKeyNeverSaves(config: Option<Config>, loads: seq<bool>, g: Gateway)
    requires !Usable(config)
    ensures InitAll(config, loads, g) == g
  {
    if |loads| > 0 {
      NoKeyNeverSaves(config, loads[1..], TryInit(config, loads[0], g));
    }
  }

  /** Initialisation run once per outcome in `loads`, in order. */
  function InitAll(config: Option<Config>, loads: seq<bool>, g: Gateway): Gateway
    decreases |loads|
  {
    if |loads| == 0 then g else InitAll(config, loads[1..], TryInit(config, loads[0], g))
  }

  /** However many times initialisation runs, the gateway stays sound. */
  lemma {:induction false} InitAllSound(config: Option<Config>, loads: seq<bool>, g: Gateway)
    requires Sound(config, g)
    ensures Sound(config, InitAll(config, loads, g))
  {
    if |loads| > 0 {
      TryInitSound(config, loads[0], g);
      InitAllSound(config, loads[1..], TryInit(config, loads[0], g));
    }
  }
}
