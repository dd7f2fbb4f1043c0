/**
 * The two input forms: a post form with the fields `group`, `text` and `image`, and a comment
 * form with the field `text`. Validation is split into the constraints the records declare
 * (required text, comment length, an existing group) and a flag standing for the checks this
 * model does not see (the uploaded picture's payload).
 * Every `text` here is the cleaned value: the framework strips surrounding whitespace before it
 * checks the length and stores the stripped text.
 */
module Forms {
  import opened Wrappers
  import opened Models

  /** What the picture field of a submitted post form holds. */
  datatype ImageInput = NoFile | ClearFile | UploadFile(name: string)

  datatype PostForm = PostForm(group: Option<Id>, text: string, image: ImageInput)

  /** A post form is valid when the text is given, the group (if any) exists and the rest passes. */
  predicate PostFormValid(form: PostForm, groups: seq<Group>, fieldsValid: bool)
  {
    && fieldsValid
    && form.text != []
    && (form.group.Some? ==> form.group.value in GroupIds(groups))
  }

  /** A comment form is valid when the text is given, fits the declared bound and the rest passes. */
  predicate CommentFormValid(text: string, fieldsValid: bool)
  {
    fieldsValid && 0 < |text| <= COMMENT_MAX_LENGTH
  }

  /** The stored picture after a form is saved over `current`: kept, cleared or replaced. */
  function StoredImage(current: string, input: ImageInput): string
  {
    match input
    case NoFile => current
    case ClearFile => ""
    case UploadFile(name) => name
  }

  /** The post a valid create form saves: the form's fields, stamped with its author and date. */
  function NewPost(id: Id, form: PostForm, author: User, now: nat): (p: Post)
    ensures p.author == author && p.id == id && p.pubDate == now
    ensures p.text == form.text && p.group == form.group
    ensures form.image.UploadFile? ==> p.image == form.image.name
    ensures !form.image.UploadFile? ==> p.image == ""
  {
    Post(id, form.text, now, author, form.group, StoredImage("", form.image))
  }

  /** A valid edit form saved over `p`: only `text`, `group` and `image` may change. */
  function ApplyEdit(p: Post, form: PostForm): (q: Post)
    ensures q == p.(text := q.text, group := q.group, image := q.image)
    ensures q.text == form.text && q.group == form.group
    ensures form.image.NoFile? ==> q.image == p.image
    ensures form.image.ClearFile? ==> q.image == ""
    ensures form.image.UploadFile? ==> q.image == form.image.name
  {
    p.(text := form.text, group := form.group, image := StoredImage(p.image, form.image))
  }
}
