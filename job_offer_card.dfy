// frontend/components/recruitment/job-offer-card.tsx: one offer in the
// recruitment grid: its status badge, its candidate count and the actions
// of its menu.
module JobOfferCard {
  import opened Base
  import opened Strings

  /** The fields of the `offer` prop the card decides on. */
  datatype CardOffer = CardOffer(id: int, status: string, candidateCount: Option<int>)

  datatype BadgeLabel = OpenLabel | ClosedLabel
  datatype BadgeVariant = DefaultBadge | SecondaryBadge
  datatype Badge = Badge(text: BadgeLabel, variant: BadgeVariant)

  /** A menu entry; `target` is the id its handler is called with. */
  datatype MenuItem = EditLink(href: string) | CloseItem(target: int) | DeleteItem(target: int)

  function StatusBadge(status: string): (b: Badge)
    ensures b.text == OpenLabel <==> status == "open"
    ensures b.variant == DefaultBadge <==> status == "open"
  {
    if status == "open" then Badge(OpenLabel, DefaultBadge) else Badge(ClosedLabel, SecondaryBadge)
  }

  /** `/recruitment/${offer.id}`, the card's own link. */
  function DetailHref(id: int): (h: string)
    ensures |h| > 13 && h[..13] == "/recruitment/" && h[13..] == IntToString(id)
  {
    "/recruitment/" + IntToString(id)
  }

  /** `/recruitment/${offer.id}/edit`. */
  function EditHref(id: int): (h: string)
    ensures |h| > 18 && h[..13] == "/recruitment/" && h[|h| - 5..] == "/edit"
    ensures h[13..|h| - 5] == IntToString(id)
  {
    DetailHref(id) + "/edit"
  }

  /** The count is rendered whenever the prop is defined, 0 included. */
  function ShownCandidateCount(o: CardOffer): (n: Option<int>)
    ensures n.Some? <==> o.candidateCount.Some?
    ensures n.Some? ==> n.value == o.candidateCount.value
  {
    o.candidateCount
  }

  /** The menu: the edit link always; close when the offer is open and a
      close handler is given; delete whenever a delete handler is given. */
  function Menu(o: CardOffer, hasOnClose: bool, hasOnDelete: bool): (m: seq<MenuItem>)
    ensures |m| >= 1 && m[0] == EditLink(EditHref(o.id))
    ensures (exists i :: 0 <= i < |m| && m[i].CloseItem?) <==> o.status == "open" && hasOnClose
    ensures (exists i :: 0 <= i < |m| && m[i].DeleteItem?) <==> hasOnDelete
    ensures forall i :: 0 <= i < |m| && !m[i].EditLink? ==> m[i].target == o.id
    ensures |m| == 1 + (if o.status == "open" && hasOnClose then 1 else 0) + (if hasOnDelete then 1 else 0)
    ensures forall i, j :: 0 <= i < |m| && 0 <= j < |m| && m[i].CloseItem? && m[j].DeleteItem? ==> i < j
  {
    var edit := EditLink(EditHref(o.id));
    if o.status == "open" && hasOnClose then
      if hasOnDelete then
        var m := [edit, CloseItem(o.id), DeleteItem(o.id)];
        assert m[1].CloseItem? && m[2].DeleteItem?;
        m
      else
        var m := [edit, CloseItem(o.id)];
        assert m[1].CloseItem?;
        m
    else if hasOnDelete then
      var m := [edit, DeleteItem(o.id)];
      assert m[1].DeleteItem?;
      m
    else
      [edit]
  }

  /** A closed offer still offers delete, never close. */
  lemma ClosedOfferMenu(id: int, count: Option<int>)
    ensures Menu(CardOffer(id, "closed", count), true, true) == [EditLink(EditHref(id)), DeleteItem(id)]
  {
  }
}
