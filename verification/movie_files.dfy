/** `MovieFilesService`: the video files of a movie, one row per uploaded
    file with its quality, language and public URL. */
module MovieFiles {
  import opened Outcomes
  import opened Ids
  import opened Text
  import opened Schema

  /** Where an uploaded video file is served from. */
  const VideoPrefix: string := "http://localhost:3000/video_url/"

  /** A row of `movie_files`; `quality` holds a `FileQuality` value. */
  datatype MovieFile = MovieFile(movieId: int, quality: string, fileUrl: string, language: string)

  /** The public URL of an uploaded file. */
  function VideoUrl(filename: string): (u: string)
    ensures StartsWith(u, VideoPrefix)
    ensures u[|VideoPrefix|..] == filename
  {
    VideoPrefix + filename
  }

  /** Different files get different URLs. */
  lemma VideoUrlInjective(a: string, b: string)
    requires VideoUrl(a) == VideoUrl(b)
    ensures a == b
  {
    assert VideoUrl(a)[|VideoPrefix|..] == VideoUrl(b)[|VideoPrefix|..];
  }

  /** `createMovieFile`: NotFound when the movie is missing; otherwise a new
      row whose URL is the video prefix followed by the file name. */
  function CreateMovieFile(files: map<int, MovieFile>, movies: map<int, Movie>, movieId: int,
                           quality: string, language: string, filename: string)
    : (r: Result<(map<int, MovieFile>, int)>)
    ensures r.Err? <==> movieId !in movies
    ensures r.Err? ==> r.error == NotFound
    ensures r.Ok? ==>
      && r.value.1 !in files
      && r.value.0 == files[r.value.1 := MovieFile(movieId, quality, VideoUrl(filename), language)]
  {
    if movieId !in movies then Err(NotFound)
    else
      var id := FreshId(files.Keys);
      Ok((files[id := MovieFile(movieId, quality, VideoUrl(filename), language)], id))
  }

  /** A file name was uploaded (`if (filename)`: present and not empty). */
  predicate Uploaded(filename: Option<string>) {
    filename.Some? && filename.value != ""
  }

  /** `updateMovieFile`: NotFound for a missing id; only the fields sent
      change, the URL only when a file was uploaded; BadRequest when
      nothing is sent. The movie a file belongs to never changes. */
  function UpdateMovieFile(files: map<int, MovieFile>, id: int, quality: Option<string>,
                           language: Option<string>, filename: Option<string>)
    : (r: Result<(map<int, MovieFile>, MovieFile)>)
    ensures r.Ok? <==> id in files && (quality.Some? || language.Some? || Uploaded(filename))
    ensures r == Err(NotFound) <==> id !in files
    ensures r == Err(BadRequest) <==> id in files && quality.None? && language.None? && !Uploaded(filename)
    ensures r.Ok? ==>
      var f := r.value.1;
      && id in files
      && r.value.0 == files[id := f]
      && f.movieId == files[id].movieId
      && f.quality == quality.GetOr(files[id].quality)
      && f.language == language.GetOr(files[id].language)
      && f.fileUrl == (if Uploaded(filename) then VideoUrl(filename.value) else files[id].fileUrl)
  {
    if id !in files then Err(NotFound)
    else if quality.None? && language.None? && !Uploaded(filename) then Err(BadRequest)
    else
      var prev := files[id];
      var f := prev.(quality := quality.GetOr(prev.quality),
                     language := language.GetOr(prev.language),
                     fileUrl := if Uploaded(filename) then VideoUrl(filename.value) else prev.fileUrl);
      Ok((files[id := f], f))
  }

  /** Sending the same update twice leaves the table as one update does. */
  lemma UpdateMovieFileIdempotent(files: map<int, MovieFile>, id: int, quality: Option<string>,
                                  language: Option<string>, filename: Option<string>)
    requires UpdateMovieFile(files, id, quality, language, filename).Ok?
    ensures var once := UpdateMovieFile(files, id, quality, language, filename).value;
      UpdateMovieFile(once.0, id, quality, language, filename) == Ok(once)
  {
    var (m, f) := UpdateMovieFile(files, id, quality, language, filename).value;
    assert m[id := f] == m;
  }

  /** `deleteMovieFile`: NotFound for a missing id; otherwise that row is
      removed and returned. */
  function DeleteMovieFile(files: map<int, MovieFile>, id: int): (r: Result<(map<int, MovieFile>, MovieFile)>)
    ensures r.Err? <==> id !in files
    ensures r.Err? ==> r.error == NotFound
    ensures r.Ok? ==> id in files && r.value == (files - {id}, files[id])
  {
    if id !in files then Err(NotFound) else Ok((files - {id}, files[id]))
  }

  /** Deleting a file just created restores the table and hands back the
      row that was created. */
  lemma CreateThenDeleteMovieFile(files: map<int, MovieFile>, movies: map<int, Movie>, movieId: int,
                                  quality: string, language: string, filename: string)
    requires movieId in movies
    ensures var (next, id) := CreateMovieFile(files, movies, movieId, quality, language, filename).value;
      DeleteMovieFile(next, id) == Ok((files, MovieFile(movieId, quality, VideoUrl(filename), language)))
  {
    var (next, id) := CreateMovieFile(files, movies, movieId, quality, language, filename).value;
    assert next - {id} == files;
  }
}
