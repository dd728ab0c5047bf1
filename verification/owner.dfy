/** The owner's `assign_art` view: the art ids ticked on the form become the
    authoritative set of ExhibitionArt links of one exhibition. Links for ids
    newly ticked are created with get-or-create, links for ids no longer
    ticked are deleted, and everything else is left alone. The link table is
    a sequence of rows, so duplicate rows and the rows of other exhibitions
    are visible to the contracts. */
module OwnerViews {
  import opened Values
  import opened Text

  datatype Link = Link(exhibition: int, art: int)

  datatype Request = Get | Post(art: seq<string>)

  datatype Response =
    | RedirectToLogin
    | RedirectToExhibitionsList
    | RenderAssignForm(existingIds: set<int>)

  datatype AssignError =
    | ExhibitionDoesNotExist
    | InvalidArtId(text: string)
    | IntegrityError(art: int)

  datatype Outcome = Outcome(links: seq<Link>, response: Response)

  /** `exhibition.exhibition_arts.values_list('art_id')`, as a set. */
  function LinkedIds(links: seq<Link>, exhibition: int): (ids: set<int>)
    ensures forall a :: a in ids <==> Link(exhibition, a) in links
  {
    set l | l in links && l.exhibition == exhibition :: l.art
  }

  /** The rows that belong to other exhibitions, in table order. */
  function OtherRows(links: seq<Link>, exhibition: int): (r: seq<Link>)
    ensures forall l :: l in r <==> l in links && l.exhibition != exhibition
    decreases |links|
  {
    if |links| == 0 then []
    else
      var last := links[|links| - 1];
      OtherRows(links[..|links| - 1], exhibition) + (if last.exhibition != exhibition then [last] else [])
  }

  /** `int(text) == id`. */
  predicate ParsesAs(text: string, id: int) {
    PyInt(text) == Some(id)
  }

  /** The set comprehension over already-converted ids: the first `None`
      stands for the `ValueError` of its text. */
  function CollectIds(texts: seq<string>, parsed: seq<Option<int>>): (r: Result<set<int>, AssignError>)
    requires |parsed| == |texts|
    ensures r.Success? <==> forall i :: 0 <= i < |parsed| ==> parsed[i].Some?
    ensures r.Success? ==> forall id :: id in r.value <==> exists i :: 0 <= i < |parsed| && parsed[i] == Some(id)
    ensures r.Failure? ==> exists i :: 0 <= i < |parsed| && r.error == InvalidArtId(texts[i]) && parsed[i].None?
    decreases |texts|
  {
    if |texts| == 0 then Success({})
    else
      match parsed[0]
      case None => Failure(InvalidArtId(texts[0]))
      case Some(id) =>
        var tail := CollectIds(texts[1..], parsed[1..]);
        assert forall i :: 1 <= i < |parsed| ==> parsed[i] == parsed[1..][i - 1] && texts[i] == texts[1..][i - 1];
        match tail
        case Failure(e) => Failure(e)
        case Success(rest) => Success({id} + rest)
  }

  /** `int(t)` for every submitted text, in order. */
  function ParseEach(texts: seq<string>): (r: seq<Option<int>>)
    ensures |r| == |texts| && forall i :: 0 <= i < |texts| ==> r[i] == PyInt(texts[i])
  {
    seq(|texts|, i requires 0 <= i < |texts| => PyInt(texts[i]))
  }

  /** `set(int(i) for i in selected)`: the first text `int()` rejects raises. */
  function ParseIds(texts: seq<string>): (r: Result<set<int>, AssignError>)
    ensures r.Success? <==> forall i :: 0 <= i < |texts| ==> PyInt(texts[i]).Some?
    ensures r.Success? ==> forall id :: id in r.value <==> exists i :: 0 <= i < |texts| && ParsesAs(texts[i], id)
    ensures r.Failure? ==> exists i :: 0 <= i < |texts| && r.error == InvalidArtId(texts[i]) && PyInt(texts[i]).None?
  {
    CollectIds(texts, ParseEach(texts))
  }

  /** `ExhibitionArt.objects.get_or_create(exhibition=…, art_id=…)`. */
  function GetOrCreate(links: seq<Link>, exhibition: int, art: int): (r: seq<Link>)
    ensures multiset(r)[Link(exhibition, art)] == if Link(exhibition, art) in links then multiset(links)[Link(exhibition, art)] else 1
    ensures forall l :: l != Link(exhibition, art) ==> multiset(r)[l] == multiset(links)[l]
    ensures OtherRows(r, exhibition) == OtherRows(links, exhibition)
  {
    if Link(exhibition, art) in links then links
    else
      var r := links + [Link(exhibition, art)];
      assert r[..|r| - 1] == links;
      r
  }

  /** `ExhibitionArt.objects.filter(exhibition=…, art_id=…).delete()`. */
  function DeleteLinks(links: seq<Link>, exhibition: int, art: int): (r: seq<Link>)
    ensures multiset(r)[Link(exhibition, art)] == 0
    ensures forall l :: l != Link(exhibition, art) ==> multiset(r)[l] == multiset(links)[l]
    ensures OtherRows(r, exhibition) == OtherRows(links, exhibition)
    decreases |links|
  {
    if |links| == 0 then []
    else
      var init := links[..|links| - 1];
      var last := links[|links| - 1];
      assert links == init + [last];
      var rest := DeleteLinks(init, exhibition, art);
      if last == Link(exhibition, art) then rest
      else
        var r := rest + [last];
        assert r[..|r| - 1] == rest;
        r
  }

  /** The number of rows linking `art` to `exhibition`. */
  function Count(links: seq<Link>, exhibition: int, art: int): nat {
    multiset(links)[Link(exhibition, art)]
  }

  /** The rows of other exhibitions are those of `before`, in the same order. */
  predicate OthersUnchanged(before: seq<Link>, after: seq<Link>, exhibition: int) {
    OtherRows(after, exhibition) == OtherRows(before, exhibition)
  }

  /** Some element of a non-empty set, as a `for` loop over it reaches. */
  method Pick(s: set<int>) returns (x: int)
    requires |s| > 0
    ensures x in s
  {
    if forall y :: y !in s {
      assert false;
    }
    x :| x in s;
  }

  /** The creation loop: `get_or_create` for each id of `todo`
      (`selected_ids - existing_ids`), in the unspecified order in which
      the set is iterated. An id naming no Art (not in `arts`) violates the
      foreign key: the loop stops with that id, and the rows created before
      it stay, each having been committed on its own. Which rows those are
      depends on the order, so the contract for that case only bounds them. */
  method CreateLinks(links: seq<Link>, exhibition: int, todo: set<int>, arts: set<int>)
    returns (r: seq<Link>, missing: Option<int>)
    ensures OthersUnchanged(links, r, exhibition)
    ensures missing.None? <==> todo <= arts
    ensures missing.Some? ==> missing.value in todo && missing.value !in arts
    ensures missing.None? ==> forall a :: (Count(r, exhibition, a) ==
      if a in todo && Count(links, exhibition, a) == 0 then 1 else Count(links, exhibition, a))
    ensures missing.Some? ==> forall a ::
      || Count(r, exhibition, a) == Count(links, exhibition, a)
      || (a in todo && a in arts && Count(links, exhibition, a) == 0 && Count(r, exhibition, a) == 1)
  {
    r := links;
    missing := None;
    var remaining := todo;
    while |remaining| > 0
      invariant remaining <= todo && todo - remaining <= arts
      invariant OthersUnchanged(links, r, exhibition)
      invariant forall a :: (Count(r, exhibition, a) ==
        if a in todo - remaining && Count(links, exhibition, a) == 0 then 1 else Count(links, exhibition, a))
      decreases |remaining|
    {
      var art := Pick(remaining);
      if art !in arts {
        missing := Some(art);
        return;
      }
      r := CreateCounted(r, exhibition, art);
      remaining := remaining - {art};
    }
  }

  /** `GetOrCreate` stated per art id. */
  function CreateCounted(links: seq<Link>, exhibition: int, art: int): (r: seq<Link>)
    ensures forall a :: (Count(r, exhibition, a) ==
      if a == art && Count(links, exhibition, a) == 0 then 1 else Count(links, exhibition, a))
    ensures OthersUnchanged(links, r, exhibition)
  {
    GetOrCreate(links, exhibition, art)
  }

  /** `DeleteLinks` stated per art id. */
  function DeleteCounted(links: seq<Link>, exhibition: int, art: int): (r: seq<Link>)
    ensures forall a :: Count(r, exhibition, a) == if a == art then 0 else Count(links, exhibition, a)
    ensures OthersUnchanged(links, r, exhibition)
  {
    DeleteLinks(links, exhibition, art)
  }

  /** The deletion loop: a filtered `delete()` for each id of `todo`
      (`existing_ids - selected_ids`), in set iteration order. */
  method DeleteUnticked(links: seq<Link>, exhibition: int, todo: set<int>) returns (r: seq<Link>)
    ensures forall a :: Count(r, exhibition, a) == if a in todo then 0 else Count(links, exhibition, a)
    ensures OthersUnchanged(links, r, exhibition)
  {
    r := links;
    var remaining := todo;
    while |remaining| > 0
      invariant remaining <= todo
      invariant OthersUnchanged(links, r, exhibition)
      invariant forall a :: Count(r, exhibition, a) == if a in todo - remaining then 0 else Count(links, exhibition, a)
      decreases |remaining|
    {
      var art := Pick(remaining);
      r := DeleteCounted(r, exhibition, art);
      remaining := remaining - {art};
    }
  }

  lemma LinkedIffCounted(links: seq<Link>, exhibition: int)
    ensures forall a :: a in LinkedIds(links, exhibition) <==> Count(links, exhibition, a) > 0
  {
  }

  /** The POST branch once every text converted: create the links of the
      newly ticked ids, then delete those no longer ticked. A newly ticked
      id that names no Art (not in `arts`) raises `IntegrityError` from its
      `get_or_create`, after the links created before it were committed and
      before any link is deleted. `stored` is the link table once the
      request is over. */
  method SubmitSelection(arts: set<int>, links: seq<Link>, exhibition: int, selected: set<int>)
    returns (r: Result<Outcome, AssignError>, stored: seq<Link>)
    ensures r.Success? ==> stored == r.value.links
    ensures var existing := LinkedIds(links, exhibition);
      r.Failure? <==> exists a :: a in selected && a !in existing && a !in arts
    ensures r.Failure? ==>
      var existing := LinkedIds(links, exhibition);
      && r.error.IntegrityError?
      && r.error.art in selected && r.error.art !in existing && r.error.art !in arts
      && OthersUnchanged(links, stored, exhibition)
      && (forall a :: a in existing ==> Count(stored, exhibition, a) == Count(links, exhibition, a))
      && (forall a :: a !in existing && Count(stored, exhibition, a) > 0 ==>
            a in selected && a in arts && Count(stored, exhibition, a) == 1)
    ensures r.Success? ==>
      var existing := LinkedIds(links, exhibition);
      var after := r.value.links;
      && r.value.response == RedirectToExhibitionsList
      && LinkedIds(after, exhibition) == selected
      && OthersUnchanged(links, after, exhibition)
      && (forall a :: a in selected && a in existing ==> Count(after, exhibition, a) == Count(links, exhibition, a))
      && (forall a :: a in selected && a !in existing ==> Count(after, exhibition, a) == 1)
      && (forall a :: a !in selected ==> Count(after, exhibition, a) == 0)
  {
    var existing := LinkedIds(links, exhibition);
    LinkedIffCounted(links, exhibition);
    var created, missing := CreateLinks(links, exhibition, selected - existing, arts);
    if missing.Some? {
      assert missing.value in selected - existing;
      return Failure(IntegrityError(missing.value)), created;
    }
    var current := DeleteUnticked(created, exhibition, existing - selected);
    LinkedIffCounted(current, exhibition);
    forall a ensures a in LinkedIds(current, exhibition) <==> a in selected {
      if a in existing {
        assert Count(links, exhibition, a) > 0;
      }
    }
    assert LinkedIds(current, exhibition) == selected;
    return Success(Outcome(current, RedirectToExhibitionsList)), current;
  }

  /** The view. Only superusers get past the decorator; an unknown exhibition
      raises `DoesNotExist`; a non-integer id raises `ValueError` before any
      row is written; otherwise the selection is submitted. `stored` is the
      link table once the request is over, whatever it answered. */
  method AssignArt(isSuperuser: bool, exhibitions: set<int>, arts: set<int>, links: seq<Link>, exhibition: int, request: Request)
    returns (r: Result<Outcome, AssignError>, stored: seq<Link>)
    ensures r.Success? ==> stored == r.value.links
    ensures r.Failure? && !r.error.IntegrityError? ==> stored == links
    ensures !isSuperuser ==> r == Success(Outcome(links, RedirectToLogin))
    ensures isSuperuser && exhibition !in exhibitions ==> r == Failure(ExhibitionDoesNotExist)
    ensures isSuperuser && exhibition in exhibitions && request.Get? ==>
      r == Success(Outcome(links, RenderAssignForm(LinkedIds(links, exhibition))))
    ensures isSuperuser && exhibition in exhibitions && request.Post? && ParseIds(request.art).Failure? ==>
      r == Failure(ParseIds(request.art).error)
    ensures isSuperuser && exhibition in exhibitions && request.Post? && ParseIds(request.art).Success? ==>
      var selected := ParseIds(request.art).value;
      var existing := LinkedIds(links, exhibition);
      && (r.Failure? <==> exists a :: a in selected && a !in existing && a !in arts)
      && (r.Failure? ==>
        && r.error.IntegrityError?
        && r.error.art in selected && r.error.art !in existing && r.error.art !in arts
        && OthersUnchanged(links, stored, exhibition)
        && (forall a :: a in existing ==> Count(stored, exhibition, a) == Count(links, exhibition, a))
        && (forall a :: a !in existing && Count(stored, exhibition, a) > 0 ==>
              a in selected && a in arts && Count(stored, exhibition, a) == 1))
    ensures isSuperuser && exhibition in exhibitions && request.Post? && r.Success? ==>
      var selected := ParseIds(request.art).value;
      var existing := LinkedIds(links, exhibition);
      var after := r.value.links;
      && r.value.response == RedirectToExhibitionsList
      && LinkedIds(after, exhibition) == selected
      && OthersUnchanged(links, after, exhibition)
      && (forall a :: a in selected && a in existing ==> Count(after, exhibition, a) == Count(links, exhibition, a))
      && (forall a :: a in selected && a !in existing ==> Count(after, exhibition, a) == 1)
      && (forall a :: a !in selected ==> Count(after, exhibition, a) == 0)
  {
    stored := links;
    if !isSuperuser {
      return Success(Outcome(links, RedirectToLogin)), stored;
    }
    if exhibition !in exhibitions {
      return Failure(ExhibitionDoesNotExist), stored;
    }
    if request.Get? {
      return Success(Outcome(links, RenderAssignForm(LinkedIds(links, exhibition)))), stored;
    }
    var parsed := ParseIds(request.art);
    if parsed.Failure? {
      return Failure(parsed.error), stored;
    }
    r, stored := SubmitSelection(arts, links, exhibition, parsed.value);
  }

  /** Every text of `b` occurs in `a`, so `b` parses whenever `a` does and
      selects no id `a` does not. */
  lemma {:induction false} ParseIdsCovered(a: seq<string>, b: seq<string>)
    requires forall t :: t in b ==> t in a
    requires ParseIds(a).Success?
    ensures ParseIds(b).Success?
    ensures ParseIds(b).value <= ParseIds(a).value
  {
    var pa := ParseIds(a);
    forall i | 0 <= i < |b| ensures PyInt(b[i]).Some? {
      assert b[i] in a;
      var j :| 0 <= j < |a| && a[j] == b[i];
      assert PyInt(a[j]).Some?;
    }
    var pb := ParseIds(b);
    forall x | x in pb.value ensures x in pa.value {
      var i :| 0 <= i < |b| && ParsesAs(b[i], x);
      assert b[i] in a;
      var j :| 0 <= j < |a| && a[j] == b[i];
      assert ParsesAs(a[j], x);
    }
  }

  /** The submitted ids act as a set: reordering or repeating the texts
      changes neither whether the request is accepted nor the ids it selects. */
  lemma SubmissionIsASet(a: seq<string>, b: seq<string>)
    requires forall t :: t in a <==> t in b
    ensures ParseIds(a).Success? == ParseIds(b).Success?
    ensures ParseIds(a).Success? ==> ParseIds(a).value == ParseIds(b).value
  {
    if ParseIds(a).Success? {
      ParseIdsCovered(a, b);
      ParseIdsCovered(b, a);
    } else if ParseIds(b).Success? {
      ParseIdsCovered(b, a);
    }
  }
}
