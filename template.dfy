/**
 * The template controller over a standalone ContentTemplates table: the visibility
 * filter and ordering of the listing, and create, update and delete.
 */
module Templates {
  import opened Common
  import opened Seqs
  import opened Sorting
  import Auth

  datatype ContentTemplate = ContentTemplate(
    id: Guid,
    name: string,
    description: Option<string>,
    templateBody: string,
    createdById: Guid,
    createdAt: Time,
    updatedAt: Time,
    isPublic: bool)

  function TemplateId(t: ContentTemplate): Guid { t.id }

  /** The body of both `CreateTemplateRequest` and `UpdateTemplateRequest`. */
  datatype TemplateRequest = TemplateRequest(name: string, description: Option<string>, templateBody: string, isPublic: bool)

  datatype TemplateRef = TemplateRef(id: Guid, name: string)
  datatype TemplateView = TemplateView(
    id: Guid, name: string, description: Option<string>, isPublic: bool, createdBy: string, createdAt: Time)

  /** A template the caller may list without `includePrivate`: public, or the caller's own. */
  predicate VisibleTo(t: ContentTemplate, caller: Option<Guid>): (ok: bool)
    ensures t.isPublic ==> ok
    ensures caller.None? ==> (ok <==> t.isPublic)
  {
    t.isPublic || caller == Some(t.createdById)
  }

  /** The visibility filter; with `includePrivate` set every template passes. */
  function Visible(templates: seq<ContentTemplate>, includePrivate: bool, caller: Option<Guid>)
    : (r: seq<ContentTemplate>)
    ensures includePrivate ==> r == templates
    ensures forall t :: t in r <==> t in templates && (includePrivate || t.isPublic || caller == Some(t.createdById))
  {
    if includePrivate then templates else Filter(templates, (t: ContentTemplate) => VisibleTo(t, caller))
  }

  /**
   * Newest first.  The listing is ordered on the projected entries, which carry
   * `CreatedAt` unchanged, so this is the order `OrderByDescending` gives the rows.
   */
  predicate ViewCreatedDesc(a: TemplateView, b: TemplateView) { a.createdAt >= b.createdAt }

  lemma ViewCreatedDescTotal()
    ensures Total(ViewCreatedDesc)
  {
  }

  /** `CreatedBy` is a required navigation: every creator is a stored user. */
  ghost predicate CreatorsKnown(templates: seq<ContentTemplate>, users: seq<Auth.User>) {
    forall t :: t in templates ==> t.createdById in Keys(users, Auth.UserId)
  }

  function ViewOf(t: ContentTemplate, users: seq<Auth.User>): (v: TemplateView)
    requires t.createdById in Keys(users, Auth.UserId)
    ensures v.id == t.id && v.name == t.name && v.description == t.description
    ensures v.isPublic == t.isPublic && v.createdAt == t.createdAt
    ensures exists i :: 0 <= i < |users| && users[i].id == t.createdById && users[i].username == v.createdBy
  {
    TemplateView(t.id, t.name, t.description, t.isPublic, Auth.UsernameOf(users, t.createdById), t.createdAt)
  }

  function ViewOfRow(users: seq<Auth.User>): ContentTemplate --> TemplateView {
    (t: ContentTemplate) requires t.createdById in Keys(users, Auth.UserId) => ViewOf(t, users)
  }

  class TemplateController {
    var templates: seq<ContentTemplate>

    ghost predicate Valid()
      reads this
    {
      UniqueBy(templates, TemplateId)
    }

    constructor (templates: seq<ContentTemplate>)
      requires UniqueBy(templates, TemplateId)
      ensures Valid() && this.templates == templates
    {
      this.templates := templates;
    }

    /** `GetAll`: the visible templates, each once, newest first. */
    function GetAll(users: seq<Auth.User>, includePrivate: bool, caller: Option<Guid>): (r: seq<TemplateView>)
      reads this
      requires CreatorsKnown(templates, users)
      ensures multiset(r) == multiset(Map(Visible(templates, includePrivate, caller), ViewOfRow(users)))
      ensures forall k, j :: 0 <= k < j < |r| ==> r[k].createdAt >= r[j].createdAt
    {
      ViewCreatedDescTotal();
      Sort(Map(Visible(templates, includePrivate, caller), ViewOfRow(users)), ViewCreatedDesc)
    }

    /** Unauthorized, inserting nothing, without a caller; otherwise one new row owned by the caller. */
    method Create(request: TemplateRequest, caller: Option<Guid>, newId: Guid, now: Time)
      returns (r: Response<TemplateRef>)
      requires Valid() && newId !in Keys(templates, TemplateId)
      modifies this`templates
      ensures Valid()
      ensures r.Unauthorized? <==> caller.None?
      ensures caller.None? ==> templates == old(templates)
      ensures caller.Some? ==>
                && r == Created(TemplateRef(newId, request.name))
                && templates == old(templates) + [ContentTemplate(newId, request.name, request.description,
                                                                   request.templateBody, caller.value, now, now,
                                                                   request.isPublic)]
    {
      if caller.None? {
        return Unauthorized;
      }
      var t := ContentTemplate(newId, request.name, request.description, request.templateBody,
                               caller.value, now, now, request.isPublic);
      AppendKeepsUnique(templates, TemplateId, t);
      templates := templates + [t];
      r := Created(TemplateRef(t.id, t.name));
    }

    /**
     * NotFound for a missing id; otherwise Name, Description, TemplateBody, IsPublic and
     * UpdatedAt are overwritten, whoever the caller is.
     */
    method Update(id: Guid, request: TemplateRequest, now: Time) returns (r: Response<TemplateRef>)
      requires Valid()
      modifies this`templates
      ensures Valid()
      ensures r.NotFound? <==> id !in Keys(old(templates), TemplateId)
      ensures match FindKey(old(templates), TemplateId, id)
              case None => templates == old(templates)
              case Some(i) =>
                var t := old(templates)[i];
                && templates == old(templates)[i := t.(name := request.name, description := request.description,
                                                       templateBody := request.templateBody,
                                                       isPublic := request.isPublic, updatedAt := now)]
                && r == Ok(TemplateRef(id, request.name))
    {
      var i := FindKey(templates, TemplateId, id);
      if i.None? {
        return NotFound;
      }
      var t := templates[i.value].(name := request.name, description := request.description,
                                   templateBody := request.templateBody, isPublic := request.isPublic,
                                   updatedAt := now);
      UpdateKeepsUnique(templates, TemplateId, i.value, t);
      templates := templates[i.value := t];
      r := Ok(TemplateRef(t.id, t.name));
    }

    /** NotFound for a missing id; otherwise exactly that row is removed. */
    method Delete(id: Guid) returns (r: Response<TemplateRef>)
      requires Valid()
      modifies this`templates
      ensures Valid()
      ensures r.NotFound? <==> id !in Keys(old(templates), TemplateId)
      ensures r.NotFound? || r.NoContent?
      ensures r.NotFound? ==> templates == old(templates)
      ensures match FindKey(old(templates), TemplateId, id)
              case None => true
              case Some(i) => templates == old(templates)[..i] + old(templates)[i + 1..]
      ensures id !in Keys(templates, TemplateId)
    {
      var i := FindKey(templates, TemplateId, id);
      if i.None? {
        return NotFound;
      }
      WithoutUniqueKey(templates, TemplateId, i.value);
      WithoutKeepsUnique(templates, TemplateId, id, TemplateId);
      KeysWithout(templates, TemplateId, id);
      templates := Without(templates, TemplateId, id);
      r := NoContent;
    }
  }

  /**
   * Without `includePrivate`, every listed entry is the view of a stored template that is
   * public or the caller's own; with no caller, only public ones.
   */
  lemma ListedAreVisible(c: TemplateController, users: seq<Auth.User>, caller: Option<Guid>, v: TemplateView)
    requires CreatorsKnown(c.templates, users)
    requires v in c.GetAll(users, false, caller)
    ensures exists t :: t in c.templates && VisibleTo(t, caller) && v == ViewOf(t, users)
    ensures caller.None? ==> v.isPublic
  {
    var visible := Visible(c.templates, false, caller);
    var views := Map(visible, ViewOfRow(users));
    assert v in multiset(c.GetAll(users, false, caller));
    assert v in multiset(views);
    var k :| 0 <= k < |views| && views[k] == v;
    assert visible[k] in visible;
  }

  /** With `includePrivate`, every stored template is listed, private ones included. */
  lemma IncludePrivateListsAll(c: TemplateController, users: seq<Auth.User>, caller: Option<Guid>,
                               t: ContentTemplate)
    requires CreatorsKnown(c.templates, users)
    requires t in c.templates
    ensures ViewOf(t, users) in c.GetAll(users, true, caller)
  {
    var views := Map(c.templates, ViewOfRow(users));
    var k :| 0 <= k < |c.templates| && c.templates[k] == t;
    assert views[k] == ViewOf(t, users);
    assert ViewOf(t, users) in multiset(views);
    assert ViewOf(t, users) in multiset(c.GetAll(users, true, caller));
  }
}
