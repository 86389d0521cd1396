/**
 * The category controller over a standalone Categories table.  The content side of a
 * category (`Category.Contents`) is a table of (category, content) links, since the
 * content record itself carries no category.
 */
module Categories {
  import opened Common
  import opened Seqs
  import opened Slugs

  datatype Category = Category(
    id: Guid,
    name: string,
    slug: Option<string>,
    description: Option<string>,
    parentId: Option<Guid>,
    createdAt: Time,
    updatedAt: Time)

  /** One content filed under a category. */
  datatype CategoryContent = CategoryContent(categoryId: Guid, contentId: Guid)

  function CategoryId(c: Category): Guid { c.id }
  function ParentOf(c: Category): Option<Guid> { c.parentId }
  function LinkCategory(l: CategoryContent): Guid { l.categoryId }

  /** The body of both `CreateCategoryRequest` and `UpdateCategoryRequest`. */
  datatype CategoryRequest = CategoryRequest(name: string, description: Option<string>, parentId: Option<Guid>)

  datatype CategoryRef = CategoryRef(id: Guid, name: string, slug: Option<string>)
  datatype ChildView = ChildView(id: Guid, name: string, slug: Option<string>, contentCount: nat)
  datatype CategoryView = CategoryView(
    id: Guid, name: string, slug: Option<string>, description: Option<string>,
    childCount: nat, contentCount: nat, children: Option<seq<ChildView>>)

  const DeleteRefusal: string := "Cannot delete category with sub-categories or associated content"

  /** The categories with no parent, in table order. */
  function Roots(categories: seq<Category>): (r: seq<Category>)
    ensures forall c :: c in r <==> c in categories && c.parentId.None?
  {
    Where(categories, ParentOf, None)
  }

  /** The roots are listed in table order, each as often as it is stored. */
  lemma RootsInOrder(categories: seq<Category>)
    ensures Subsequence(Roots(categories), categories)
    ensures forall c :: multiset(Roots(categories))[c] == if c.parentId.None? then multiset(categories)[c] else 0
  {
    WhereSubsequence(categories, ParentOf, None);
    WhereCount(categories, ParentOf, None);
  }

  function SubCategories(categories: seq<Category>, id: Guid): (r: seq<Category>)
    ensures forall c :: c in r <==> c in categories && c.parentId == Some(id)
  {
    Where(categories, ParentOf, Some(id))
  }

  /** The sub-categories are listed in table order, each as often as it is stored. */
  lemma SubCategoriesInOrder(categories: seq<Category>, id: Guid)
    ensures Subsequence(SubCategories(categories, id), categories)
    ensures forall c :: multiset(SubCategories(categories, id))[c]
                        == if c.parentId == Some(id) then multiset(categories)[c] else 0
  {
    WhereSubsequence(categories, ParentOf, Some(id));
    WhereCount(categories, ParentOf, Some(id));
  }

  /** How many content links name the category; zero exactly when none does. */
  function ContentCount(links: seq<CategoryContent>, id: Guid): (n: nat)
    ensures n <= |links|
    ensures n > 0 <==> exists l :: l in links && l.categoryId == id
  {
    var w := Where(links, LinkCategory, id);
    assert w != [] ==> w[0] in w;
    |w|
  }

  function ChildOf(c: Category, links: seq<CategoryContent>): ChildView {
    ChildView(c.id, c.name, c.slug, ContentCount(links, c.id))
  }

  function Children(subs: seq<Category>, links: seq<CategoryContent>): (r: seq<ChildView>)
    ensures |r| == |subs|
    ensures forall j :: 0 <= j < |r| ==> r[j] == ChildOf(subs[j], links)
  {
    seq(|subs|, j requires 0 <= j < |subs| => ChildOf(subs[j], links))
  }

  /** The projection of one root; `children` is null unless asked for. */
  function ViewOf(c: Category, categories: seq<Category>, links: seq<CategoryContent>, includeChildren: bool)
    : (v: CategoryView)
    ensures v.id == c.id && v.name == c.name && v.slug == c.slug && v.description == c.description
    ensures v.childCount == |SubCategories(categories, c.id)| && v.contentCount == ContentCount(links, c.id)
    ensures v.children.None? <==> !includeChildren
    ensures includeChildren ==>
              var subs := SubCategories(categories, c.id);
              && |v.children.value| == |subs|
              && forall j :: 0 <= j < |subs| ==> v.children.value[j] == ChildOf(subs[j], links)
  {
    var subs := SubCategories(categories, c.id);
    CategoryView(c.id, c.name, c.slug, c.description, |subs|, ContentCount(links, c.id),
                 if includeChildren then Some(Children(subs, links)) else None)
  }

  /** Every parent reference names a stored category. */
  ghost predicate ParentsResolve(categories: seq<Category>) {
    forall c :: c in categories && c.parentId.Some? ==> c.parentId.value in Keys(categories, CategoryId)
  }

  /** The delete guard keeps the tree whole: removing a category with no sub-categories leaves no dangling parent. */
  lemma GuardedDeleteKeepsParents(categories: seq<Category>, i: nat)
    requires i < |categories| && UniqueBy(categories, CategoryId) && ParentsResolve(categories)
    requires |SubCategories(categories, categories[i].id)| == 0
    ensures ParentsResolve(categories[..i] + categories[i + 1..])
  {
    var id := categories[i].id;
    var rest := categories[..i] + categories[i + 1..];
    WithoutUniqueKey(categories, CategoryId, i);
    KeysWithout(categories, CategoryId, id);
    forall c | c in rest && c.parentId.Some? ensures c.parentId.value in Keys(rest, CategoryId) {
      assert c in categories;
      assert c !in SubCategories(categories, id);
    }
  }

  class CategoryController {
    var categories: seq<Category>
    var links: seq<CategoryContent>

    ghost predicate Valid()
      reads this
    {
      UniqueBy(categories, CategoryId)
    }

    constructor (categories: seq<Category>, links: seq<CategoryContent>)
      requires UniqueBy(categories, CategoryId)
      ensures Valid()
      ensures this.categories == categories && this.links == links
    {
      this.categories := categories;
      this.links := links;
    }

    /**
     * `GetAll`: one entry per root category in table order.  The counts are there in
     * both modes; the child list only when `includeChildren` is set.
     */
    function GetAll(includeChildren: bool): (r: seq<CategoryView>)
      reads this
      ensures |r| == |Roots(categories)|
      ensures forall k :: 0 <= k < |r| ==>
                var c := Roots(categories)[k];
                && r[k].id == c.id && r[k].name == c.name && r[k].slug == c.slug
                && r[k].description == c.description
                && r[k].childCount == |SubCategories(categories, c.id)|
                && r[k].contentCount == ContentCount(links, c.id)
      ensures forall k :: 0 <= k < |r| ==> (r[k].children.None? <==> !includeChildren)
      ensures includeChildren ==> forall k :: 0 <= k < |r| ==>
                var subs := SubCategories(categories, r[k].id);
                && |r[k].children.value| == r[k].childCount
                && forall j :: 0 <= j < |subs| ==> r[k].children.value[j] == ChildOf(subs[j], links)
    {
      var roots, all, links := Roots(categories), categories, links;
      seq(|roots|, k requires 0 <= k < |roots| => ViewOf(roots[k], all, links, includeChildren))
    }

    /** A new row with Slug = GenerateSlug(Name) and CreatedAt = UpdatedAt = `now`. */
    method Create(request: CategoryRequest, newId: Guid, now: Time) returns (r: Response<CategoryRef>)
      requires Valid() && newId !in Keys(categories, CategoryId)
      modifies this`categories
      ensures Valid()
      ensures r == Created(CategoryRef(newId, request.name, Some(GenerateSlug(request.name))))
      ensures categories == old(categories)
                + [Category(newId, request.name, Some(GenerateSlug(request.name)), request.description,
                            request.parentId, now, now)]
    {
      var category := Category(newId, request.name, Some(GenerateSlug(request.name)), request.description,
                               request.parentId, now, now);
      AppendKeepsUnique(categories, CategoryId, category);
      categories := categories + [category];
      r := Created(CategoryRef(category.id, category.name, category.slug));
    }

    /** NotFound for a missing id; otherwise Name, Slug, Description, parent and UpdatedAt are overwritten. */
    method Update(id: Guid, request: CategoryRequest, now: Time) returns (r: Response<CategoryRef>)
      requires Valid()
      modifies this`categories
      ensures Valid()
      ensures r.NotFound? <==> id !in Keys(old(categories), CategoryId)
      ensures match FindKey(old(categories), CategoryId, id)
              case None => categories == old(categories)
              case Some(i) =>
                var row := old(categories)[i].(name := request.name, slug := Some(GenerateSlug(request.name)),
                                               description := request.description,
                                               parentId := request.parentId, updatedAt := now);
                && r == Ok(CategoryRef(id, request.name, Some(GenerateSlug(request.name))))
                && categories == old(categories)[i := row]
    {
      var i := FindKey(categories, CategoryId, id);
      if i.None? {
        return NotFound;
      }
      var row := categories[i.value].(name := request.name, slug := Some(GenerateSlug(request.name)),
                                      description := request.description,
                                      parentId := request.parentId, updatedAt := now);
      UpdateKeepsUnique(categories, CategoryId, i.value, row);
      categories := categories[i.value := row];
      r := Ok(CategoryRef(row.id, row.name, row.slug));
    }

    /** `Delete`: the response and the table are those `DeleteOutcome` describes. */
    method Delete(id: Guid) returns (r: Response<CategoryRef>)
      requires Valid()
      modifies this`categories
      ensures Valid()
      ensures (r, categories) == Deleted(old(categories), links, id)
    {
      var i := FindKey(categories, CategoryId, id);
      if i.None? {
        return NotFound;
      }
      if |SubCategories(categories, id)| > 0 || ContentCount(links, id) > 0 {
        return BadRequest(DeleteRefusal);
      }
      WithoutUniqueKey(categories, CategoryId, i.value);
      WithoutKeepsUnique(categories, CategoryId, id, CategoryId);
      categories := categories[..i.value] + categories[i.value + 1..];
      r := NoContent;
    }
  }

  /** The response of a delete and the table it leaves. */
  function Deleted(categories: seq<Category>, links: seq<CategoryContent>, id: Guid)
    : (Response<CategoryRef>, seq<Category>)
  {
    match FindKey(categories, CategoryId, id)
    case None => (NotFound, categories)
    case Some(i) =>
      if |SubCategories(categories, id)| > 0 || ContentCount(links, id) > 0 then
        (BadRequest(DeleteRefusal), categories)
      else
        (NoContent, categories[..i] + categories[i + 1..])
  }

  /**
   * NotFound for a missing id; BadRequest, removing nothing, while the category has
   * sub-categories or content; otherwise exactly that row goes, and no remaining row
   * has it as parent.
   */
  lemma DeleteOutcome(categories: seq<Category>, links: seq<CategoryContent>, id: Guid)
    requires UniqueBy(categories, CategoryId)
    ensures var (r, after) := Deleted(categories, links, id);
            && (r.NotFound? <==> id !in Keys(categories, CategoryId))
            && (r.BadRequest? <==>
                  id in Keys(categories, CategoryId)
                  && (|SubCategories(categories, id)| > 0 || ContentCount(links, id) > 0))
            && (r.NotFound? || r.BadRequest? || r.NoContent?)
            && (r.BadRequest? ==> r.message == DeleteRefusal)
            && (!r.NoContent? ==> after == categories)
            && (r.NoContent? ==>
                  && after == Without(categories, CategoryId, id)
                  && UniqueBy(after, CategoryId)
                  && id !in Keys(after, CategoryId)
                  && forall c :: c in after ==> c.parentId != Some(id))
  {
    match FindKey(categories, CategoryId, id) {
      case None =>
      case Some(i) =>
        if |SubCategories(categories, id)| == 0 && ContentCount(links, id) == 0 {
          DeleteLeaf(categories, i);
          WithoutUniqueKey(categories, CategoryId, i);
        }
    }
  }

  /**
   * Removing a category with no sub-categories leaves a table with unique ids, without
   * that id, and with no row naming it as parent.
   */
  lemma DeleteLeaf(c0: seq<Category>, i: nat)
    requires i < |c0| && UniqueBy(c0, CategoryId) && |SubCategories(c0, c0[i].id)| == 0
    ensures var r := c0[..i] + c0[i + 1..];
            && UniqueBy(r, CategoryId) && c0[i].id !in Keys(r, CategoryId)
            && forall c :: c in r ==> c.parentId != Some(c0[i].id)
  {
    var id := c0[i].id;
    var r := c0[..i] + c0[i + 1..];
    WithoutUniqueKey(c0, CategoryId, i);
    WithoutKeepsUnique(c0, CategoryId, id, CategoryId);
    KeysWithout(c0, CategoryId, id);
    forall c | c in r ensures c.parentId != Some(id) {
      assert c in c0;
      assert c !in SubCategories(c0, id);
    }
  }
}
