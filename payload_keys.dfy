/** The validity check the adapter applies to a now-playing payload before it
    is emitted: every mandatory key must be present with a non-null value. The
    list of mandatory keys is returned by a function whose definition is not
    part of this model, so it is a parameter here. */
module PayloadKeys {
  import opened Json

  /** The payload keys whose names the example clients rely on. */
  const Title: string := "title"
  const Artist: string := "artist"
  const Playing: string := "playing"
  const DurationMicros: string := "durationMicros"
  const ElapsedTimeMicros: string := "elapsedTimeMicros"
  const TimestampEpochMicros: string := "timestampEpochMicros"

  /** Whether `key` is in `data` with a non-null value. */
  predicate IsSet(data: Dict, key: string) {
    key in data && data[key] != Null
  }

  /** `allMandatoryPayloadKeysSet(data)`, walking the mandatory key list in
      order: it holds exactly when every listed key is set in `data`, so one
      missing key or one key mapped to null makes it false. */
  function AllMandatoryPayloadKeysSet(mandatory: seq<string>, data: Dict): (ok: bool)
    ensures ok <==> forall k :: k in mandatory ==> IsSet(data, k)
    ensures (exists k :: k in mandatory && k !in data) ==> !ok
    ensures (exists k :: k in mandatory && k in data && data[k] == Null) ==> !ok
  {
    if mandatory == [] then true
    else IsSet(data, mandatory[0]) && AllMandatoryPayloadKeysSet(mandatory[1..], data)
  }

  /** Entries whose keys are not mandatory are irrelevant: two payloads that
      agree on every mandatory key are both valid or both invalid. */
  lemma OnlyMandatoryKeysMatter(mandatory: seq<string>, d1: Dict, d2: Dict)
    requires forall k :: k in mandatory ==> (k in d1 <==> k in d2)
    requires forall k :: k in mandatory && k in d1 ==> d1[k] == d2[k]
    ensures AllMandatoryPayloadKeysSet(mandatory, d1) == AllMandatoryPayloadKeysSet(mandatory, d2)
  {
  }

  /** A valid payload stays valid when it is extended with, or overwritten by,
      entries that give no mandatory key a null value. */
  lemma ExtensionKeepsValid(mandatory: seq<string>, data: Dict, extra: Dict)
    requires AllMandatoryPayloadKeysSet(mandatory, data)
    requires forall k :: k in mandatory && k in extra ==> extra[k] != Null
    ensures AllMandatoryPayloadKeysSet(mandatory, data + extra)
  {
  }
}
