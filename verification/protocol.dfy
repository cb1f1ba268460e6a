/**
  The events the admin page emits to the server over the socket, and their
  wire names.
 */
module Protocol {
  import opened Scores

  datatype ClientEvent =
    | UpdateScore(teams: seq<Team>)
    | AdminFreeze
    | AdminUnfreeze
    | AdminNext

  function EventName(e: ClientEvent): string
  {
    match e
    case UpdateScore(_) => "update-score"
    case AdminFreeze => "admin-freeze"
    case AdminUnfreeze => "admin-unfreeze"
    case AdminNext => "admin-next"
  }

  predicate SameKind(a: ClientEvent, b: ClientEvent)
  {
    (a.UpdateScore? && b.UpdateScore?) || (a.AdminFreeze? && b.AdminFreeze?) ||
    (a.AdminUnfreeze? && b.AdminUnfreeze?) || (a.AdminNext? && b.AdminNext?)
  }

  /** Two events share a wire name exactly when they are of the same kind. */
  lemma EventNamesDistinct(a: ClientEvent, b: ClientEvent)
    ensures EventName(a) == EventName(b) <==> SameKind(a, b)
  {
    assert "update-score"[0] != "admin-freeze"[0];
    assert "admin-freeze"[6] != "admin-unfreeze"[6];
    assert "admin-freeze"[6] != "admin-next"[6];
    assert "admin-unfreeze"[6] != "admin-next"[6];
    assert "update-score"[0] != "admin-unfreeze"[0];
    assert "update-score"[0] != "admin-next"[0];
  }
}
