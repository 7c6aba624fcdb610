/** Request-level vocabulary shared by the pages: the optional current user that
    the identity service reports, submitted form data, and the ways a page or a
    server action can end. */
module Web {

  datatype Option<+T> = None | Some(value: T) {
    function GetOr(default: T): T {
      match this
      case Some(v) => v
      case None => default
    }
  }

  type UserId = string

  /** The authenticated identity returned by `auth.getUser()`; its e-mail may be absent. */
  datatype User = User(id: UserId, email: Option<string>)

  /** How a page render or a server action ends.
      `Redirect` stands for Next.js `redirect(path)`, which stops execution;
      `Render` means the page is shown; `Stay` means an action returned after
      attempting its write (the form remains); `Abort` means an action returned
      before writing anything. */
  datatype Outcome = Redirect(path: string) | Render | Stay | Abort

  /** Submitted form fields by name; a field that was not submitted is absent. */
  type FormData = map<string, string>

  /** `formData.get(name)`: the value, or null (None) when the field is missing. */
  function FormGet(form: FormData, name: string): (r: Option<string>)
    ensures r.Some? <==> name in form
    ensures r.Some? ==> r.value == form[name]
  {
    if name in form then Some(form[name]) else None
  }
}
