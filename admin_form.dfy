/** The form state of the admin movie page: the eight form fields, the
    movie being edited (if any) and whether the form modal is open, with the
    transitions the page's handlers perform on them. */
module AdminForm {
  import opened JsValues
  import opened Genre

  /** The form fields, in the order the page declares them. */
  const FormFields: seq<string> :=
    ["title", "description", "image", "rating", "duration", "genre", "director", "year"]

  /** The form as the page first shows it, and as the Add button and a
      successful submit leave it: every field ''. */
  function EmptyForm(): (form: JsObject)
    ensures forall k :: k in form <==> k in FormFields
    ensures forall k :: k in form ==> form[k] == Str([])
  {
    map k | k in FormFields :: Str([])
  }

  /** The form the edit handler fills from a stored movie: each field is the
      movie's value when that is truthy and '' otherwise, and the genre is
      the movie's genre formatted as text. */
  function EditForm(movie: JsObject): (form: JsObject)
    ensures forall k :: k in form <==> k in FormFields
    ensures forall k :: k in FormFields && k != "genre" ==>
              form[k] == (if Truthy(Get(movie, k)) then movie[k] else Str([]))
    ensures form["genre"] == Str(FormatGenre(Get(movie, "genre")))
  {
    map k | k in FormFields ::
      if k == "genre" then Str(FormatGenre(Get(movie, "genre")))
      else Or(Get(movie, k), Str([]))
  }

  datatype HttpVerb = Post | Put

  /** Where the request goes: the movie collection, or one movie by id. */
  datatype Target = MovieCollection | MovieItem(id: JsValue)

  /** The request the submit handler sends: verb, target and JSON body. */
  datatype MovieRequest = MovieRequest(verb: HttpVerb, target: Target, body: JsObject)

  /** The outcome of sending the request: saved, a non-ok status whose body
      carried `message` ("" when it had none), or `fetch` itself failing. */
  datatype SubmitResponse =
    | Saved
    | ServerError(message: string)
    | FetchError(message: string)

  /** The text the submit handler stores as the page error: the message
      carried by the failure, or the handler's fallback when that message is
      empty, so a failed save never leaves an empty error. */
  function SubmitErrorText(response: SubmitResponse): (text: string)
    ensures text == [] <==> response.Saved?
    ensures !response.Saved? && response.message != [] ==> text == response.message
    ensures response == ServerError([]) ==> text == "Failed to save movie"
    ensures response == FetchError([]) ==> text == "An unexpected error occurred"
  {
    match response
    case Saved => []
    case ServerError(m) => if m != [] then m else "Failed to save movie"
    case FetchError(m) => if m != [] then m else "An unexpected error occurred"
  }

  /** The request the submit handler builds from the form and the edit
      selection: the form with only `genre` replaced by its normalised list,
      PUT to the edited movie's id when a movie is being edited, POST to the
      collection otherwise. */
  function SubmitRequest(form: JsObject, editing: Option<JsObject>): (req: MovieRequest)
    ensures req.verb == Put <==> editing.Some?
    ensures editing.Some? ==> req.target == MovieItem(Get(editing.value, "_id"))
    ensures editing.None? ==> req.target == MovieCollection
    ensures req.body.Keys == form.Keys + {"genre"}
    ensures forall k :: k in form && k != "genre" ==> req.body[k] == form[k]
    ensures req.body["genre"] == Arr(ParseGenre(Get(form, "genre")))
    ensures Get(form, "genre").Str? ==> WellFormedGenres(req.body["genre"].items)
  {
    var genreArray := ParseGenre(Get(form, "genre"));
    var movieData := form["genre" := Arr(genreArray)];
    if editing.Some? then MovieRequest(Put, MovieItem(Get(editing.value, "_id")), movieData)
    else MovieRequest(Post, MovieCollection, movieData)
  }

  /** When the form holds text in its genre field, as the page's inputs
      ensure, the genre sent is the parsed text: the array pass-through
      branch is never taken. */
  lemma SubmitSendsParsedText(form: JsObject, editing: Option<JsObject>)
    requires "genre" in form && form["genre"].Str?
    ensures SubmitRequest(form, editing).body["genre"] == Arr(ParseGenreText(form["genre"].s))
  {
    ParseGenreOfString(form["genre"].s);
  }

  /** Editing a movie and submitting the form unchanged updates that movie
      and sends back its genre list, when the list was well formed, together
      with every field the movie had a truthy value for. */
  lemma EditThenSubmit(movie: JsObject, genres: seq<string>)
    requires Get(movie, "genre") == Arr(genres) && WellFormedGenres(genres)
    ensures SubmitRequest(EditForm(movie), Some(movie)).verb == Put
    ensures SubmitRequest(EditForm(movie), Some(movie)).target == MovieItem(Get(movie, "_id"))
    ensures SubmitRequest(EditForm(movie), Some(movie)).body["genre"] == Arr(genres)
    ensures forall k :: k in FormFields && k != "genre" && Truthy(Get(movie, k)) ==>
              SubmitRequest(EditForm(movie), Some(movie)).body[k] == movie[k]
  {
    var form := EditForm(movie);
    GenreRoundTrip(genres);
    assert Get(form, "genre") == Str(FormatGenre(Arr(genres)));
  }

  /** The state of the admin movie page that the form handlers change. */
  class AdminMovies {
    var formData: JsObject
    var editingMovie: Option<JsObject>
    var showModal: bool
    var error: Option<string>

    /** Every form field is present and the genre field holds text: the
        form inputs only ever produce strings. */
    ghost predicate Valid()
      reads this
    {
      (forall k :: k in FormFields ==> k in formData)
      && "genre" in formData && formData["genre"].Str?
    }

    constructor ()
      ensures Valid()
      ensures formData == EmptyForm() && editingMovie == None
      ensures !showModal && error == None
    {
      formData := EmptyForm();
      editingMovie := None;
      showModal := false;
      error := None;
    }

    /** An input changed: the field it names takes the new value and nothing
        else changes. */
    method HandleInputChange(name: string, value: string)
      requires Valid()
      modifies this
      ensures Valid()
      ensures formData.Keys == old(formData).Keys + {name}
      ensures formData[name] == Str(value)
      ensures forall k :: k in old(formData) && k != name ==> formData[k] == old(formData)[k]
      ensures editingMovie == old(editingMovie) && showModal == old(showModal)
      ensures error == old(error)
    {
      formData := formData[name := Str(value)];
    }

    /** The Add button: clear the selection, reset the form, open the modal. */
    method OpenForAdd()
      modifies this
      ensures Valid()
      ensures formData == EmptyForm() && editingMovie == None && showModal
      ensures error == old(error)
    {
      editingMovie := None;
      formData := EmptyForm();
      showModal := true;
    }

    /** The edit button: select the movie, fill the form from it, open the
        modal. */
    method HandleEdit(movie: JsObject)
      modifies this
      ensures Valid()
      ensures formData == EditForm(movie) && editingMovie == Some(movie) && showModal
      ensures error == old(error)
    {
      editingMovie := Some(movie);
      formData := EditForm(movie);
      showModal := true;
    }

    /** The modal's close button. */
    method CloseModal()
      requires Valid()
      modifies this
      ensures Valid()
      ensures showModal == false
      ensures formData == old(formData) && editingMovie == old(editingMovie)
      ensures error == old(error)
    {
      showModal := false;
    }

    /** Submit: send the request built from the current state; when the
        server saved the movie, close the modal, clear the selection and
        reset the form, and otherwise record the error and leave the form as
        it was. */
    method HandleSubmit(response: SubmitResponse) returns (req: MovieRequest)
      requires Valid()
      modifies this
      ensures Valid()
      ensures req == SubmitRequest(old(formData), old(editingMovie))
      ensures response.Saved? ==>
                formData == EmptyForm() && editingMovie == None && !showModal
                && error == old(error)
      ensures !response.Saved? ==>
                formData == old(formData) && editingMovie == old(editingMovie)
                && showModal == old(showModal) && error == Some(SubmitErrorText(response))
    {
      req := SubmitRequest(formData, editingMovie);
      if response.Saved? {
        showModal := false;
        editingMovie := None;
        formData := EmptyForm();
      } else {
        error := Some(SubmitErrorText(response));
      }
    }
  }
}
