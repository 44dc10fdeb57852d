/** The legacy envelope: how a stored metadata value of any JSON shape crosses a wire that only
  carries portable objects, and how a consumer gets the stored value back. */
module Envelope {
  import opened Wrappers
  import opened Json
  import opened JsonText

  const LEGACY_VALUE_KEY: string := "_lenso_legacy_value"
  const LEGACY_TEXT_KEY: string := "_lenso_legacy_portable_json"

  predicate Reserved(members: seq<Member>) {
    HasKey(members, LEGACY_VALUE_KEY) || HasKey(members, LEGACY_TEXT_KEY)
  }

  predicate PassesThrough(stored: Value) {
    stored.Object? && Portable(stored) && !Reserved(stored.members)
  }

  function ProjectMetadata(stored: Value): seq<Member> {
    if PassesThrough(stored) then stored.members
    else if Portable(stored) then [Member(LEGACY_VALUE_KEY, stored)]
    else [Member(LEGACY_TEXT_KEY, String(Text(stored)))]
  }

  datatype DecodeError = InvalidText

  /** `None` means that the map is ordinary metadata. */
  function RecoverMetadata(metadata: seq<Member>): Result<Option<Value>, DecodeError> {
    if |metadata| != 1 then Ok(None)
    else if metadata[0].key == LEGACY_VALUE_KEY then Ok(Some(metadata[0].value))
    else if metadata[0].key != LEGACY_TEXT_KEY || !metadata[0].value.String? then Ok(None)
    else match ParseJson(metadata[0].value.s, MAX_NESTING)
      case Some(v) => Ok(Some(v))
      case None => Err(InvalidText)
  }

  /** Only a map whose single key is one of the two literal ones is an envelope, the second only
    around a text; an error is such a text that does not decode. */
  lemma RecoverExactly(metadata: seq<Member>, v: Value)
    ensures RecoverMetadata(metadata) == Ok(Some(v)) <==>
            || metadata == [Member("_lenso_legacy_value", v)]
            || exists text :: metadata == [Member("_lenso_legacy_portable_json", String(text))]
                              && ParseJson(text, 127) == Some(v)
    ensures RecoverMetadata(metadata) == Err(InvalidText) <==>
            exists text :: metadata == [Member("_lenso_legacy_portable_json", String(text))] && ParseJson(text, 127) == None
  {
    assert "_lenso_legacy_value"[14] != "_lenso_legacy_portable_json"[14];
    if |metadata| == 1 {
      assert metadata == [Member(metadata[0].key, metadata[0].value)];
    }
  }

  /** Recovery gives back what was enveloped and nothing for what passed through, for exactly the
    values that are portable or nest within the decoder's recursion limit. */
  lemma RecoverProjected(stored: Value)
    requires Canonical(stored)
    ensures RecoverMetadata(ProjectMetadata(stored)) == Ok(if PassesThrough(stored) then None else Some(stored))
            <==> Portable(stored) || Nesting(stored) <= MAX_NESTING
  {
    var projected := ProjectMetadata(stored);
    if PassesThrough(stored) {
      if |projected| == 1 {
        assert stored.members[0].key == projected[0].key;
      }
    } else if !Portable(stored) {
      TextRoundTrip(stored, MAX_NESTING);
    }
  }

  /** What the repository promises: a value that it reads has been decoded within the same limit, and
    is recovered. */
  lemma RecoverStored(stored: Value)
    requires Canonical(stored) && Nesting(stored) <= MAX_NESTING
    ensures RecoverMetadata(ProjectMetadata(stored)) == Ok(if PassesThrough(stored) then None else Some(stored))
  {
    RecoverProjected(stored);
  }

  lemma OnePortable(key: string, v: Value)
    ensures PortableMembers([Member(key, v)]) <==> Portable(v)
  {
    assert PortableMembers([Member(key, v)][1..]);
  }

  /** Whatever was stored, the projection may cross a portable lane. */
  lemma ProjectedIsPortable(stored: Value)
    ensures PortableMembers(ProjectMetadata(stored))
  {
    if !PassesThrough(stored) {
      OnePortable(LEGACY_VALUE_KEY, stored);
      OnePortable(LEGACY_TEXT_KEY, String(Text(stored)));
    }
  }

  /** Distinct stored values stay distinct on the wire. */
  lemma ProjectInjective(v: Value, w: Value)
    requires Canonical(v) && Canonical(w) && ProjectMetadata(v) == ProjectMetadata(w)
    ensures v == w
  {
    var p := ProjectMetadata(v);
    assert |p| == 1 ==> HasKey(p, p[0].key);
    if PassesThrough(v) && PassesThrough(w) {
      assert v == Object(p) && w == Object(p);
    } else if !PassesThrough(v) && !PassesThrough(w) {
      assert LEGACY_VALUE_KEY != LEGACY_TEXT_KEY;
      if !Portable(v) && !Portable(w) {
        TextInjective(v, w);
      }
    }
  }

  /** Portable object metadata is read back as it was written exactly when it uses no reserved key. */
  lemma ProjectIsIdentity(members: seq<Member>)
    requires PortableMembers(members)
    ensures ProjectMetadata(Object(members)) == members <==> !Reserved(members)
  {
    if Reserved(members) {
      var envelope := Member(LEGACY_VALUE_KEY, Object(members));
      assert ProjectMetadata(Object(members)) == [envelope];
      assert envelope.value.members == members;
    }
  }
}
