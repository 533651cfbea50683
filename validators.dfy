/** The server's input checks (app.py): the upload file-name filter and the
    contact-form validation of /submit-contact. */
module Validators {
  import opened Common
  import opened Text

  /** ALLOWED_EXTENSIONS */
  const AllowedExtensions: set<string> := {"pdf", "png", "jpg", "jpeg", "gif", "bmp"}

  /** `filename.rsplit('.', 1)[1]`: the text after the last '.' (the whole name when there is none). */
  function Extension(filename: string): (ext: string)
  {
    match LastIndexOf(filename, '.')
    case Some(k) => filename[k + 1..]
    case None => filename
  }

  /** `allowed_file`: the name has a '.' and its lower-cased extension is an allowed one. */
  predicate AllowedFile(filename: string)
  {
    '.' in filename && AllowedExtension(Extension(filename))
  }

  /** `ext`, lower-cased, is one of ALLOWED_EXTENSIONS. */
  predicate AllowedExtension(ext: string)
  {
    Lower(ext) in AllowedExtensions
  }

  /** Any '.' with no '.' after it is the one `rsplit` splits at. */
  lemma LastDotUnique(filename: string, i: nat)
    requires i < |filename| && filename[i] == '.' && '.' !in filename[i + 1..]
    ensures LastIndexOf(filename, '.') == Some(i)
  {
    var k := LastIndexOf(filename, '.').value;
    assert forall j :: i < j < |filename| ==> filename[j] == filename[i + 1..][j - i - 1];
    assert forall j :: k < j < |filename| ==> filename[j] == filename[k + 1..][j - k - 1];
  }

  /** An accepted name has a last '.' followed by an allowed extension. */
  lemma AcceptedHasLastDot(filename: string) returns (i: nat)
    requires AllowedFile(filename)
    ensures i < |filename| && filename[i] == '.' && '.' !in filename[i + 1..]
    ensures AllowedExtension(filename[i + 1..])
  {
    i := LastIndexOf(filename, '.').value;
  }

  /** A last '.' followed by an allowed extension makes the name accepted. */
  lemma LastDotAccepted(filename: string, i: nat)
    requires i < |filename| && filename[i] == '.' && '.' !in filename[i + 1..]
    requires AllowedExtension(filename[i + 1..])
    ensures AllowedFile(filename)
  {
    LastDotUnique(filename, i);
  }

  /** A name is accepted exactly when it has a '.' with no '.' after it and the text
      after that '.', lower-cased, is one of the six extensions. */
  lemma AllowedFileIff(filename: string)
    ensures AllowedFile(filename) <==>
      exists i :: 0 <= i < |filename| && filename[i] == '.' && '.' !in filename[i + 1..]
                  && AllowedExtension(filename[i + 1..])
  {
    if AllowedFile(filename) {
      var i := AcceptedHasLastDot(filename);
    }
    if exists i :: 0 <= i < |filename| && filename[i] == '.' && '.' !in filename[i + 1..]
                   && AllowedExtension(filename[i + 1..]) {
      var i :| 0 <= i < |filename| && filename[i] == '.' && '.' !in filename[i + 1..]
               && AllowedExtension(filename[i + 1..]);
      LastDotAccepted(filename, i);
    }
  }

  /** Only the final extension matters, and case does not. */
  lemma AcceptsFinalExtensionAnyCase()
    ensures AllowedFile("x.tar.PDF")
    ensures AllowedFile("photo.JpEg")
  {
    assert LastIndexOf("x.tar.PDF", '.') == Some(5);
    assert Lower("PDF") == "pdf";
    assert LastIndexOf("photo.JpEg", '.') == Some(5);
    assert Lower("JpEg") == "jpeg";
  }

  /** A bare extension with no '.' is refused. */
  lemma RejectsNoDot()
    ensures !AllowedFile("pdf")
  {
    assert '.' !in "pdf" by {
      assert forall i :: 0 <= i < 3 ==> "pdf"[i] != '.';
    }
  }

  /** An allowed extension that is not the last one does not help. */
  lemma RejectsInnerExtension()
    ensures !AllowedFile("report.pdf.exe")
  {
    assert LastIndexOf("report.pdf.exe", '.') == Some(10);
    assert Lower("exe") == "exe";
  }

  /** A trailing '.' leaves an empty extension, which is refused. */
  lemma RejectsEmptyExtension()
    ensures !AllowedFile("report.")
  {
    assert LastIndexOf("report.", '.') == Some(6);
  }

  /** The JSON body of /submit-contact; a missing key reads as "". */
  datatype ContactForm = ContactForm(name: Option<string>, email: Option<string>, message: Option<string>)

  /** The stripped fields of an accepted submission. */
  datatype Contact = Contact(name: string, email: string, message: string)

  /** Both rejections answer HTTP 400. */
  datatype ContactError = MissingField | InvalidEmail

  /** `submit_contact`'s checks: every stripped field must be non-empty, then the
      stripped e-mail must contain both '@' and '.'. */
  function ValidateContact(form: ContactForm): (r: Result<Contact, ContactError>)
    ensures r.Err? && r.error == MissingField <==>
      AllSpace(form.name.GetOr("")) || AllSpace(form.email.GetOr("")) || AllSpace(form.message.GetOr(""))
    ensures r.Ok? <==>
      && !AllSpace(form.name.GetOr("")) && !AllSpace(form.message.GetOr(""))
      && '@' in Strip(form.email.GetOr("")) && '.' in Strip(form.email.GetOr(""))
    ensures r.Ok? ==>
      r.value == Contact(Strip(form.name.GetOr("")), Strip(form.email.GetOr("")), Strip(form.message.GetOr("")))
  {
    var name := Strip(form.name.GetOr(""));
    var email := Strip(form.email.GetOr(""));
    var message := Strip(form.message.GetOr(""));
    if name == [] || email == [] || message == [] then Err(MissingField)
    else if '@' !in email || '.' !in email then Err(InvalidEmail)
    else Ok(Contact(name, email, message))
  }
}
