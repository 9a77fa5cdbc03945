// The integrated student system's face side: the gallery loaded into the
// object's lists, the recognition of an uploaded image into the result
// label and the student selection, and the placeholder guard in front of
// grade prediction.

module StudentApp {
  import opened Options
  import opened KnownFaces
  import opened Matching
  import opened Text

  const SUBJECT_PLACEHOLDER: string := "Select Subject"
  const STUDENT_PLACEHOLDER: string := "Select Student"
  const NO_FACE_TEXT: string := "No face detected."
  const NO_MATCH_TEXT: string := "No match found."
  const MATCH_PREFIX: string := "Match found: "

  /** The result label's text and, on a match, the name written into the
      student selection. */
  datatype FaceResult = FaceResult(text: string, student: Option<string>)

  /** upload_image's decision for a selected file: "No face detected." when
      the image has no encoding, "No match found." when no known face is
      within tolerance (always so for an empty gallery), and otherwise the
      name at the first closest known face, shown and selected. */
  function Recognize<E>(names: seq<string>, encodings: seq<E>, probes: seq<E>, dist: (E, E) -> real, tolerance: real)
    : (r: FaceResult)
    requires |names| == |encodings|
    ensures r.text == NO_FACE_TEXT <==> |probes| == 0
    ensures r.student.Some? <==>
      |probes| > 0 && exists i :: 0 <= i < |encodings| && dist(encodings[i], probes[0]) <= tolerance
    ensures r.text == NO_MATCH_TEXT <==> r.student.None? && |probes| > 0
    ensures r.student.Some? ==> exists k ::
      && 0 <= k < |names|
      && r.student.value == names[k]
      && r.text == MATCH_PREFIX + names[k]
      && (forall j :: 0 <= j < |encodings| ==> dist(encodings[k], probes[0]) <= dist(encodings[j], probes[0]))
      && (forall j :: 0 <= j < k ==> dist(encodings[k], probes[0]) < dist(encodings[j], probes[0]))
  {
    match Identify(encodings, probes, dist, tolerance)
    case NoFace => FaceResult(NO_FACE_TEXT, None)
    case NoMatch => FaceResult(NO_MATCH_TEXT, None)
    case Match(k) =>
      assert (MATCH_PREFIX + names[k])[0] == 'M';
      FaceResult(MATCH_PREFIX + names[k], Some(names[k]))
  }

  /** What predict_grade goes on with once both selections are made. */
  datatype Prediction = Refused | Predict(subject: string, student: string)

  class StudentSystem<E> {
    var knownFaceEncodings: seq<E>
    var knownFaceNames: seq<string>
    var faceResultText: string
    var subjectChoice: string
    var studentChoice: string

    /** The two gallery lists stay index-aligned. */
    predicate Valid()
      reads this
    {
      |knownFaceNames| == |knownFaceEncodings|
    }

    /** The gallery is loaded first; the result label starts empty and both
        selections show their placeholders. */
    constructor(listing: Option<seq<string>>, encode: string -> seq<E>)
      ensures Valid()
      ensures listing.None? ==> knownFaceNames == [] && knownFaceEncodings == []
      ensures listing.Some? ==>
        Gallery(knownFaceNames, knownFaceEncodings) == Build(listing.value, encode, ExactJpgPngJpeg)
      ensures faceResultText == ""
      ensures subjectChoice == SUBJECT_PLACEHOLDER && studentChoice == STUDENT_PLACEHOLDER
    {
      knownFaceEncodings := [];
      knownFaceNames := [];
      faceResultText := "";
      subjectChoice := SUBJECT_PLACEHOLDER;
      studentChoice := STUDENT_PLACEHOLDER;
      new;
      var _ := LoadKnownFaces(listing, encode);
    }

    /** load_known_faces: reset both lists; a missing folder is created and
        leaves them empty; otherwise every listed ".jpg", ".png" or ".jpeg"
        file (case-sensitive) with a face adds its first encoding and its
        extension-less name. */
    method LoadKnownFaces(listing: Option<seq<string>>, encode: string -> seq<E>) returns (created: bool)
      modifies this
      ensures Valid()
      ensures created <==> listing.None?
      ensures listing.None? ==> knownFaceNames == [] && knownFaceEncodings == []
      ensures listing.Some? ==>
        Gallery(knownFaceNames, knownFaceEncodings) == Build(listing.value, encode, ExactJpgPngJpeg)
      ensures faceResultText == old(faceResultText)
      ensures subjectChoice == old(subjectChoice) && studentChoice == old(studentChoice)
    {
      knownFaceEncodings := [];
      knownFaceNames := [];
      if listing.None? {
        return true;
      }
      var files := listing.value;
      for i := 0 to |files|
        invariant Gallery(knownFaceNames, knownFaceEncodings) == Build(files[..i], encode, ExactJpgPngJpeg)
        invariant faceResultText == old(faceResultText)
        invariant subjectChoice == old(subjectChoice) && studentChoice == old(studentChoice)
      {
        assert files[..i + 1][..i] == files[..i];
        var fileName := files[i];
        if Accepts(ExactJpgPngJpeg, fileName) {
          var encodings := encode(fileName);
          if |encodings| > 0 {
            knownFaceEncodings := knownFaceEncodings + [encodings[0]];
            knownFaceNames := knownFaceNames + [SplitExtRoot(fileName)];
          }
        }
      }
      assert files[..|files|] == files;
      created := false;
    }

    /** upload_image: with no file chosen nothing changes; otherwise the
        result label shows the decision and a match also selects the
        student. The tolerance is compare_faces' default. */
    method UploadImage(filePath: string, probes: seq<E>, dist: (E, E) -> real, tolerance: real)
      requires Valid()
      modifies this
      ensures Valid()
      ensures knownFaceNames == old(knownFaceNames) && knownFaceEncodings == old(knownFaceEncodings)
      ensures subjectChoice == old(subjectChoice)
      ensures filePath == [] ==> faceResultText == old(faceResultText) && studentChoice == old(studentChoice)
      ensures filePath != [] ==>
        var r := Recognize(knownFaceNames, knownFaceEncodings, probes, dist, tolerance);
        && faceResultText == r.text
        && studentChoice == if r.student.Some? then r.student.value else old(studentChoice)
    {
      if |filePath| == 0 {
        return;
      }
      if |probes| > 0 {
        var unknownEncoding := probes[0];
        var distances := Distances(knownFaceEncodings, unknownEncoding, dist);
        var results := CompareFaces(distances, tolerance);
        if true in results {
          var bestMatchIndex := FirstArgMin(distances);
          var name := knownFaceNames[bestMatchIndex];
          faceResultText := MATCH_PREFIX + name;
          studentChoice := name;
        } else {
          faceResultText := NO_MATCH_TEXT;
        }
      } else {
        faceResultText := NO_FACE_TEXT;
      }
    }

    /** The guard at the start of predict_grade: refused while either
        selection still shows its placeholder, otherwise the prediction
        goes ahead for the selected subject and student. */
    method PredictGrade() returns (p: Prediction)
      ensures p == Refused <==> subjectChoice == SUBJECT_PLACEHOLDER || studentChoice == STUDENT_PLACEHOLDER
      ensures p.Predict? ==> p.subject == subjectChoice && p.student == studentChoice
    {
      if subjectChoice == SUBJECT_PLACEHOLDER || studentChoice == STUDENT_PLACEHOLDER {
        return Refused;
      }
      return Predict(subjectChoice, studentChoice);
    }
  }

  /** A match fills in the student selection with a gallery name, so after
      a match prediction waits only on the subject, unless a gallery image
      is itself named "Select Student". */
  lemma MatchSelectsGalleryName<E>(names: seq<string>, encodings: seq<E>, probes: seq<E>,
                                   dist: (E, E) -> real, tolerance: real)
    requires |names| == |encodings|
    requires Recognize(names, encodings, probes, dist, tolerance).student.Some?
    ensures Recognize(names, encodings, probes, dist, tolerance).student.value in names
    ensures STUDENT_PLACEHOLDER !in names ==>
      Recognize(names, encodings, probes, dist, tolerance).student.value != STUDENT_PLACEHOLDER
  {
  }
}
