/**
 * The parameter object handed to the document factory and the builder that fills it in.
 * The builder's extra-parameter map is an object of its own that the built parameters keep
 * a reference to, so an extra parameter added after `build` is still seen through them.
 * Java `null` is `None`; a publication date is a day number.
 */
module CreationParams {
  import opened Wrappers

  /** The value of a parameter object, as the factory reads it. */
  datatype Params = Params(
    id: Option<string>,
    title: Option<string>,
    author: Option<string>,
    publicationDate: Option<int>,
    extras: map<string, Option<string>>)

  /** `HashMap.get`: the stored value, or `null` for a key never put. */
  function Extra(p: Params, key: string): (v: Option<string>)
    ensures key !in p.extras ==> v.None?
    ensures key in p.extras ==> v == p.extras[key]
  {
    if key in p.extras then p.extras[key] else None
  }

  /** The last value put under a key is the one read back; other keys are not disturbed. */
  lemma {:induction false} ExtraLastWriteWins(p: Params, key: string, value: Option<string>, other: string)
    ensures Extra(p.(extras := p.extras[key := value]), key) == value
    ensures other != key ==> Extra(p.(extras := p.extras[key := value]), other) == Extra(p, other)
  {
  }

  /** The `HashMap` of extra parameters, shared between a builder and what it builds. */
  class ExtraParams {
    var entries: map<string, Option<string>>

    constructor ()
      ensures entries == map[]
    {
      entries := map[];
    }
  }

  /** The built parameter object: its own fields are final, its extra map is the builder's. */
  class DocumentCreationParams {
    const id: Option<string>
    const title: Option<string>
    const author: Option<string>
    const publicationDate: Option<int>
    const extraParams: ExtraParams

    /** The private constructor that `build` calls: it copies the fields and keeps the builder's map. */
    constructor (builder: Builder)
      ensures id == builder.id && title == builder.title && author == builder.author
      ensures publicationDate == builder.publicationDate
      ensures extraParams == builder.extraParams
    {
      id := builder.id;
      title := builder.title;
      author := builder.author;
      publicationDate := builder.publicationDate;
      extraParams := builder.extraParams;
    }

    /** `getExtraParam`: `null` for a key that was never added. */
    function GetExtraParam(key: string): Option<string>
      reads extraParams
    {
      Extra(View(), key)
    }

    /** What the parameters hold right now, extra parameters included. */
    function View(): Params
      reads extraParams
    {
      Params(id, title, author, publicationDate, extraParams.entries)
    }
  }

  /** `DocumentCreationParams.Builder`: every setter updates one field and returns the builder itself. */
  class Builder {
    var id: Option<string>
    var title: Option<string>
    var author: Option<string>
    var publicationDate: Option<int>
    const extraParams: ExtraParams

    /** A new builder: every field `null` and an empty extra map of its own. */
    constructor ()
      ensures id.None? && title.None? && author.None? && publicationDate.None?
      ensures fresh(extraParams) && extraParams.entries == map[]
    {
      id := None;
      title := None;
      author := None;
      publicationDate := None;
      extraParams := new ExtraParams();
    }

    method Id(id: Option<string>) returns (self: Builder)
      modifies this
      ensures self == this && this.id == id
      ensures title == old(title) && author == old(author) && publicationDate == old(publicationDate)
    {
      this.id := id;
      self := this;
    }

    method Title(title: Option<string>) returns (self: Builder)
      modifies this
      ensures self == this && this.title == title
      ensures id == old(id) && author == old(author) && publicationDate == old(publicationDate)
    {
      this.title := title;
      self := this;
    }

    method Author(author: Option<string>) returns (self: Builder)
      modifies this
      ensures self == this && this.author == author
      ensures id == old(id) && title == old(title) && publicationDate == old(publicationDate)
    {
      this.author := author;
      self := this;
    }

    method PublicationDate(publicationDate: Option<int>) returns (self: Builder)
      modifies this
      ensures self == this && this.publicationDate == publicationDate
      ensures id == old(id) && title == old(title) && author == old(author)
    {
      this.publicationDate := publicationDate;
      self := this;
    }

    /** `addExtraParam`: puts into the shared map, overwriting an earlier value under the key. */
    method AddExtraParam(key: string, value: Option<string>) returns (self: Builder)
      modifies extraParams
      ensures self == this
      ensures extraParams.entries == old(extraParams.entries)[key := value]
    {
      extraParams.entries := extraParams.entries[key := value];
      self := this;
    }

    /** `build`: a new parameter object over this builder's fields and its very map. */
    method Build() returns (params: DocumentCreationParams)
      ensures fresh(params)
      ensures params.View() == Params(id, title, author, publicationDate, extraParams.entries)
      ensures params.extraParams == extraParams
    {
      params := new DocumentCreationParams(this);
    }
  }
}
