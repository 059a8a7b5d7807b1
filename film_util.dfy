/** util/FilmUtil.java: copy the non-null fields of an update request onto a
    stored film. */
module FilmUtil {
  import opened Common
  import opened Model

  /** The film that `filmFieldsUpdate(cur, upd)` leaves behind: name,
      description, release date, duration, MPA and genres taken from `upd`
      where it has them; id and likes always those of `cur`. */
  function MergedFilm(cur: FilmData, upd: FilmData): (r: FilmData)
    ensures r.id == cur.id && r.likes == cur.likes
  {
    FilmData(cur.id, Prefer(upd.name, cur.name), Prefer(upd.description, cur.description),
             Prefer(upd.releaseDate, cur.releaseDate), Prefer(upd.duration, cur.duration),
             Prefer(upd.mpa, cur.mpa), Prefer(upd.genres, cur.genres), cur.likes)
  }

  /** The setters run one by one on `oldFilm`, which is also the result. */
  method FilmFieldsUpdate(oldFilm: Film, newFilm: Film) returns (r: Film)
    modifies oldFilm`name, oldFilm`description, oldFilm`releaseDate, oldFilm`duration,
             oldFilm`mpa, oldFilm`genres
    ensures r == oldFilm
    ensures oldFilm.Data() == MergedFilm(old(oldFilm.Data()), old(newFilm.Data()))
  {
    if newFilm.name.Some? {
      oldFilm.name := newFilm.name;
    }
    if newFilm.description.Some? {
      oldFilm.description := newFilm.description;
    }
    if newFilm.releaseDate.Some? {
      oldFilm.releaseDate := newFilm.releaseDate;
    }
    if newFilm.duration.Some? {
      oldFilm.duration := newFilm.duration;
    }
    if newFilm.mpa.Some? {
      oldFilm.mpa := newFilm.mpa;
    }
    if newFilm.genres.Some? {
      oldFilm.genres := newFilm.genres;
    }
    r := oldFilm;
  }

  /** Each of the six fields is taken from the request exactly when the
      request's field is non-null. */
  lemma MergedFilmFields(cur: FilmData, upd: FilmData)
    ensures var r := MergedFilm(cur, upd);
      && r.name == (if upd.name.Some? then upd.name else cur.name)
      && r.description == (if upd.description.Some? then upd.description else cur.description)
      && r.releaseDate == (if upd.releaseDate.Some? then upd.releaseDate else cur.releaseDate)
      && r.duration == (if upd.duration.Some? then upd.duration else cur.duration)
      && r.mpa == (if upd.mpa.Some? then upd.mpa else cur.mpa)
      && r.genres == (if upd.genres.Some? then upd.genres else cur.genres)
  {
  }

  /** A request with every field null changes nothing. */
  lemma MergedFilmAllNull(cur: FilmData, upd: FilmData)
    requires upd.name.None? && upd.description.None? && upd.releaseDate.None?
    requires upd.duration.None? && upd.mpa.None? && upd.genres.None?
    ensures MergedFilm(cur, upd) == cur
  {
  }

  /** Applying the same request twice is applying it once. */
  lemma MergedFilmIdempotent(cur: FilmData, upd: FilmData)
    ensures MergedFilm(MergedFilm(cur, upd), upd) == MergedFilm(cur, upd)
  {
  }
}
