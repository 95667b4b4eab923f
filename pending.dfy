/**
 * The table of pending requests: a process-wide dictionary from a short request
 * id to the link the user sent. A valid link inserts an entry; a format choice
 * pops it, so each entry is handed out at most once.
 */
module Pending {
  import opened Wrappers

  class PendingTable {
    /** The dictionary `pendientes`, id to link. */
    var entries: map<string, string>

    /** The table starts empty. */
    constructor ()
      ensures entries == map[]
    {
      entries := map[];
    }

    /**
     * `pendientes[id] = link`: afterwards `id` maps to `link`, an earlier entry for
     * the same id is overwritten, and every other id keeps what it had.
     */
    method Register(id: string, link: string)
      modifies this
      ensures entries == old(entries)[id := link]
      ensures id in entries && entries[id] == link
      ensures forall other | other != id :: (other in entries <==> other in old(entries))
      ensures forall other | other != id && other in entries :: entries[other] == old(entries)[other]
    {
      entries := entries[id := link];
    }

    /**
     * `pendientes.pop(id, None)`: returns the link stored for `id`, if any, and
     * removes the entry, leaving every other id as it was.
     */
    method Claim(id: string) returns (link: Option<string>)
      modifies this
      ensures link == Lookup(old(entries), id)
      ensures entries == old(entries) - {id}
      ensures id !in entries
    {
      link := Lookup(entries, id);
      entries := entries - {id};
    }
  }

  /** The stored value for `id`, or None when the id is absent. */
  function Lookup(entries: map<string, string>, id: string): (r: Option<string>)
    ensures r.Some? <==> id in entries
    ensures r.Some? ==> r.value == entries[id]
  {
    if id in entries then Some(entries[id]) else None
  }

  /** A client of the table: register, claim, claim again. */
  method RegisterThenClaimTwice(table: PendingTable, id: string, link: string)
    returns (first: Option<string>, second: Option<string>)
    modifies table
    ensures first == Some(link) && second == None
    ensures table.entries == old(table.entries) - {id}
  {
    table.Register(id, link);
    first := table.Claim(id);
    second := table.Claim(id);
  }
}
