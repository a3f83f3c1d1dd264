/** The names of the collector's artifacts, and the parsers that decide which names are ours. The
    platform's own parser of ids accepts much more than canonical text; here it is any function that
    reads canonical text back. */
module VolumeNames {
  import opened Base
  import opened Uuids

  const VOLUME_PREFIX: string := "smap-agent-fs-"
  const SESSION_PREFIX: string := "smap-agent-session-"

  type Parser = string -> Option<nat>

  /** All that is asked of the lenient parser. */
  ghost predicate ReadsCanonical(lenient: Parser) {
    && (forall id: nat :: IsId(id) ==> lenient(Text(id)) == Some(id))
    && (forall s :: lenient(s).Some? ==> IsId(lenient(s).value))
  }

  function ParseUuidStrict(lenient: Parser, text: string): Option<nat> {
    match lenient(text)
    case None => None
    case Some(id) => if Text(id) == text then Some(id) else None
  }

  function VolumeName(agent: nat): string {
    VOLUME_PREFIX + Text(agent)
  }

  function SessionVolumeName(agent: nat, room: nat): string {
    SESSION_PREFIX + Text(agent) + "-" + Text(room)
  }

  function ParseAgentId(lenient: Parser, name: string): Option<nat> {
    if !(VOLUME_PREFIX <= name) then None else ParseUuidStrict(lenient, name[|VOLUME_PREFIX|..])
  }

  function ParseSessionIds(lenient: Parser, name: string): Option<(nat, nat)> {
    if !(SESSION_PREFIX <= name) then None
    else
      var body := name[|SESSION_PREFIX|..];
      if |body| != 36 * 2 + 1 || body[36] != '-' then None
      else
        var agent := ParseUuidStrict(lenient, body[..36]);
        var room := ParseUuidStrict(lenient, body[37..]);
        if agent.None? || room.None? then None else Some((agent.value, room.value))
  }

  function ParsePrefixAgentId(lenient: Parser, name: string): Option<nat> {
    if name == "" || name[|name| - 1] != '/' then None
    else
      var body := name[..|name| - 1];
      if '/' in body then None else ParseUuidStrict(lenient, body)
  }

  // ----- Printer and parsers undo each other -----

  lemma StrictAcceptsExactlyCanonical(lenient: Parser, text: string, id: nat)
    requires ReadsCanonical(lenient) && IsId(id)
    ensures ParseUuidStrict(lenient, text) == Some(id) <==> text == Text(id)
  {
    assert lenient(Text(id)) == Some(id);
  }

  lemma AgentNamesExactly(lenient: Parser, name: string, agent: nat)
    requires ReadsCanonical(lenient) && IsId(agent)
    ensures ParseAgentId(lenient, name) == Some(agent) <==> name == "smap-agent-fs-" + Text(agent)
  {
    if VOLUME_PREFIX <= name {
      var rest := name[|VOLUME_PREFIX|..];
      assert name == VOLUME_PREFIX + rest;
      StrictAcceptsExactlyCanonical(lenient, rest, agent);
      assert VolumeName(agent)[|VOLUME_PREFIX|..] == Text(agent);
    }
  }

  lemma SessionNamesExactly(lenient: Parser, name: string, agent: nat, room: nat)
    requires ReadsCanonical(lenient) && IsId(agent) && IsId(room)
    ensures ParseSessionIds(lenient, name) == Some((agent, room)) <==>
            name == "smap-agent-session-" + Text(agent) + "-" + Text(room)
  {
    var printed := SessionVolumeName(agent, room);
    var tail := Text(agent) + "-" + Text(room);
    assert printed == SESSION_PREFIX + tail;
    assert printed[|SESSION_PREFIX|..] == tail;
    assert tail[..36] == Text(agent) && tail[36] == '-' && tail[37..] == Text(room);
    StrictAcceptsExactlyCanonical(lenient, Text(agent), agent);
    StrictAcceptsExactlyCanonical(lenient, Text(room), room);
    if ParseSessionIds(lenient, name) == Some((agent, room)) {
      var body := name[|SESSION_PREFIX|..];
      StrictAcceptsExactlyCanonical(lenient, body[..36], agent);
      StrictAcceptsExactlyCanonical(lenient, body[37..], room);
      assert body == body[..36] + [body[36]] + body[37..];
      assert name == SESSION_PREFIX + body;
    }
  }

  lemma PrefixNamesExactly(lenient: Parser, name: string, agent: nat)
    requires ReadsCanonical(lenient) && IsId(agent)
    ensures ParsePrefixAgentId(lenient, name) == Some(agent) <==> name == Text(agent) + "/"
  {
    var printed := Text(agent) + "/";
    assert printed[..36] == Text(agent);
    StrictAcceptsExactlyCanonical(lenient, Text(agent), agent);
    if ParsePrefixAgentId(lenient, name) == Some(agent) {
      var body := name[..|name| - 1];
      StrictAcceptsExactlyCanonical(lenient, body, agent);
      assert name == body + "/";
    }
  }

  /** No name belongs to two kinds of artifact. */
  lemma NoNameIsAcceptedTwice(lenient: Parser, name: string)
    ensures ParseAgentId(lenient, name).None? || ParseSessionIds(lenient, name).None?
  {
    assert VOLUME_PREFIX[11] == 'f' && SESSION_PREFIX[11] == 's';
  }

  /** Such a parser exists, so the canonical form identifies its id. */
  lemma LooseParseReadsCanonical()
    ensures ReadsCanonical(LooseParse)
  {
    forall id: nat | IsId(id) ensures LooseParse(Text(id)) == Some(id) { LooseParseUndoesText(id); }
    forall s | LooseParse(s).Some? ensures IsId(LooseParse(s).value) { HexIsBounded(DropHyphens(s)); }
  }
}
