/** `struct Genre` and its validating constructor (models/genre.h). */
module GenreModel {
  import opened Wrappers

  datatype Genre = Genre(id: int, title: string, description: string)

  datatype GenreError = EmptyTitle

  /** `Genre(t, desc, id = -1)`: only an empty title is refused; white space counts as content. */
  function NewGenre(title: string, description: string, id: int := -1): (r: Result<Genre, GenreError>)
    ensures r.Success? <==> |title| > 0
    ensures r.Success? ==> r.value == Genre(id, title, description)
  {
    if title == "" then Failure(EmptyTitle) else Success(Genre(id, title, description))
  }

  predicate GenreRebuilds(g: Genre) {
    NewGenre(g.title, g.description, g.id).Success?
  }
}
