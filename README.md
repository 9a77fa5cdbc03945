# Face identity bookkeeping

This project models the identity-resolution core of a small face-recognition
code base. The core has three front ends:

- `recognize_face` and its `start_recognition` guard, in the Tk application
  `project/mine_for_sure.py`;
- the module-level batch script `project/mine_number_one.py`;
- the face side of the integrated student system `project/final_test.py`:
  `load_known_faces`, `upload_image` and the selection guard of
  `predict_grade`.

All three load a gallery and identify an upload against it:

1. **Gallery.** A directory listing is filtered by extension. Every accepted
   file with a detectable face adds its first encoding and its name without
   extension to two parallel lists.
2. **Identification.** An upload without a face ends the run: with an error
   message in the GUI version and the script, and with the label text
   "No face detected." in the student system. Otherwise the first encoding
   is compared with every gallery encoding. It matches when some distance is
   within the tolerance, and the reported name is the one at the first
   minimal distance (numpy `argmin`).

Only the GUI version and the script go on when nothing matches:

3. **Cluster store.** An unmatched face is filed into a pickled dict from an
   integer cluster id to a list of encodings. DBSCAN labels the stored
   encodings with the new face last. A noise label starts a cluster under
   `max(labels[:-1], default=-1) + 1`; any other label is used as the dict key
   and the face is appended under it.
4. **Promotion.** When the face's key holds exactly one encoding, the user
   may name it. A non-empty name saves the image as
   `<name with spaces replaced by "_">.jpg` in the gallery directory, appends
   the name and encoding to the gallery lists, and pops the key from the dict.

Modules:

- `Options`: the optional value for a missing directory, file or selection.
- `Text`: the Python string operations the code relies on.
- `KnownFaces`: the gallery, its two extension rules and its loading loop.
- `Matching`: `compare_faces`, `face_distance`, `argmin`, and the
  identification decision.
- `Clusters`: the insertion-ordered dict and the filing step.
- `Pipeline`: what a run reports and writes, and the clustering fallback the
  GUI version and the script share.
- `ForSure`: `recognize_face` and `start_recognition`.
- `NumberOne`: the batch script.
- `StudentApp`: the `StudentSystem` class, whose fields the methods update
  in place.

The two procedural front ends are methods proved equal to specification
functions (`ForSure.Recognition`, `NumberOne.ScriptRun`). Each run's effects
are collected in a `Run` value: its report, the final gallery lists, every
`pickle.dump` of the dict in order, and the name of any image written.

The model follows the code as written; in particular:

- DBSCAN's labels are used directly as dict keys. Nothing maps a fresh run's
  labels back to the stored clusters, so a noise id can land on a live
  cluster and replace it (`Clusters.NoiseCanOverwriteCluster`).
- Joining under a label that is not yet a key also prompts for a name
  (`Clusters.SingletonIffFreshKey`).
- The GUI version does not strip the dialog's answer, so an answer of spaces
  promotes (`ForSure.SpacesOnlyReplyPromotes`). The script strips it
  (`NumberOne.BlankReplyKeepsSingleton`).
- The GUI version dumps the dict twice on promotion; the script dumps it once
  at the end (`NumberOne.ScriptMatchesRecognition`).
- The student system filters extensions case-sensitively and also accepts
  ".jpeg". The other two lower-case the name and accept ".jpg"/".png" only.
- A gallery image named "Select Student" would make a match look like an
  unmade selection (`StudentApp.MatchSelectsGalleryName`).

## Model

| member | source | states |
|---|---|---|
| Text.IsSpace | project/mine_number_one.py:81 | the characters `str.strip()` removes: the code points `str.isspace()` accepts |
| Text.EndsWith | project/mine_for_sure.py:29 | `str.endswith(suffix)`, compared from the last character backwards |
| Text.Lower | project/mine_for_sure.py:29 | `filename.lower()`: same length, each character mapped by the ASCII case mapping |
| Text.EndsWithTail | project/mine_for_sure.py:29 | `endswith(suffix)` holds exactly when the suffix is the tail slice of the name |
| Text.Strip | project/mine_number_one.py:80-82 | `input(...).strip()`: the result is a slice of the answer with only whitespace cut from both ends, has non-whitespace ends, and is empty exactly when the answer is all whitespace |
| Text.LastIndexOf | project/mine_for_sure.py:34 | the index of the last dot, or -1, with no dot after it |
| Text.SplitExtRoot | project/mine_for_sure.py:34 | `os.path.splitext(filename)[0]` is a prefix of the file name |
| Text.RootDropsExtension | project/mine_for_sure.py:34 | a name whose last dot starts the final n characters loses exactly those n, unless only dots precede that dot |
| Text.ReplaceSpaces | project/mine_for_sure.py:85 | `name.replace(' ', '_')`: same length, spaces become underscores, every other character kept |
| KnownFaces.Accepts | project/mine_for_sure.py:29 | the two extension filters: the lower-cased name ends in ".jpg" or ".png" (GUI version and script), or the name as written ends in ".jpg", ".png" or ".jpeg" (student system, final_test.py line 68) |
| KnownFaces.ImageFileName | project/mine_for_sure.py:85 | the saved image's file name: the entered name with spaces replaced by "_", then ".jpg" |
| KnownFaces.Gallery.Add | project/mine_for_sure.py:88-89 | promotion appends the name and the encoding at the same new last index and keeps the existing entries |
| KnownFaces.Build | project/mine_for_sure.py:28-34 | the gallery built from a listing keeps its two lists aligned and has at most one entry per listed file |
| KnownFaces.Load | project/mine_for_sure.py:28-34 | the loading loop fills the two lists with exactly the gallery `Build` defines for the listing |
| KnownFaces.BuildSources | project/mine_number_one.py:16-22 | every entry comes from a listed file that passes the filter and has a face, with its name and first encoding; entries keep the listing order; no such file is missed |
| KnownFaces.AcceptedNameDropsExtension | project/mine_for_sure.py:29-34 | an accepted file's gallery name is the file name without its 4-character (or, for ".jpeg", 5-character) extension, except a name of only dots before the extension, which is kept whole |
| KnownFaces.ImageFileAccepted | project/mine_for_sure.py:85 | the saved image's name passes both extension filters |
| KnownFaces.ImageFileRoot | project/mine_for_sure.py:85 | splitext of the saved image's name gives the entered name with spaces replaced |
| KnownFaces.ReplaceSpacesKeeps | project/mine_for_sure.py:85 | replacing spaces leaves a name unchanged exactly when it has no space |
| KnownFaces.SavedImageReloadsAs | project/mine_for_sure.py:83-89 | for a name with a character other than a dot, the saved image's file name passes both extension filters and splitext gives back the name with spaces replaced, so the gallery name it would load under equals the entered name exactly when that name has no space |
| Matching.FirstArgMin | project/mine_for_sure.py:51 | `argmin`: an index of a minimal distance with every earlier distance strictly larger |
| Matching.CompareFaces | project/mine_for_sure.py:47 | one flag per gallery encoding, true exactly when the distance is within the tolerance |
| Matching.Distances | project/mine_for_sure.py:48 | one distance per gallery encoding, in gallery order |
| Matching.Decide | project/mine_for_sure.py:50-51 | no match exactly when every distance exceeds the tolerance (so always on an empty gallery); a match is within tolerance, minimal, and the first minimal one |
| Matching.Identify | project/mine_for_sure.py:40-53 | no face exactly when the upload has no encoding; a match exactly when some gallery encoding is within tolerance of the first encoding; the match is the first closest gallery entry |
| Clusters.Store.Get | project/mine_for_sure.py:82 | `cluster_data.get(k, default)`: the list under k, or the default when k is absent |
| Clusters.Store.Flatten | project/mine_for_sure.py:62 | the comprehension over `cluster_data.values()`: the lists concatenated in key order, as many encodings as the lists hold together |
| Clusters.Store.Assign | project/mine_for_sure.py:70 | `cluster_data[k] = v` keeps the store a dict: distinct keys, in insertion order, each with a list |
| Clusters.Store.SetDefaultAppend | project/mine_for_sure.py:73 | `setdefault(k, []).append(x)` keeps the store a dict |
| Clusters.Store.Pop | project/mine_for_sure.py:90 | `pop(k)` removes exactly key k and its list and keeps the others in their order |
| Clusters.Empty | project/mine_for_sure.py:59-60 | a missing pickle file gives a dict with no encodings |
| Clusters.AssignLength | project/mine_for_sure.py:70 | assigning a list changes the stored encoding count by its size less the size of the list it replaces |
| Clusters.PopLength | project/mine_for_sure.py:90 | popping a key removes exactly the encodings filed under it |
| Clusters.FlattenLayout | project/mine_for_sure.py:62 | the flattened dict is the lists in key order: each key's list sits between the encodings of the keys before and after it |
| Clusters.ClusteringInput | project/mine_for_sure.py:63 | the points handed to DBSCAN: the flattened dict, then the face |
| Clusters.ClusteringInputLayout | project/mine_for_sure.py:62-63 | DBSCAN's input is the flattened dict followed by the new face, one point per stored encoding plus one |
| Clusters.IsLabelling | project/mine_for_sure.py:64 | what DBSCAN's `labels_` promise: one label per point, each -1 (noise) or a cluster number |
| Clusters.MaxOr | project/mine_for_sure.py:69 | `max(xs, default=d)`: d on an empty sequence, otherwise an element no smaller than any other |
| Clusters.NewClusterId | project/mine_for_sure.py:69 | the noise id is non-negative, exceeds every stored point's label, and is 0 or one more than some stored label |
| Clusters.Place | project/mine_for_sure.py:66-75 | filing keeps the store a dict and files the face under a present key |
| Clusters.PlaceEffect | project/mine_for_sure.py:66-75 | noise gives the key NewClusterId with list `[face]`, replacing any list there; another label is the key itself with the face appended to its list or to `[]`; no other key changes; a new key goes last |
| Clusters.PlaceSize | project/mine_for_sure.py:68-75 | joining adds exactly one encoding; starting a cluster adds one and drops whatever list the new id held |
| Clusters.NoiseCanOverwriteCluster | project/mine_for_sure.py:68-70 | with {0: [a, b], 1: [c]} and labels [0, 0, -1, -1], the new id is 1: c is replaced by d and the store does not grow |
| Clusters.SingletonIffFreshKey | project/mine_for_sure.py:66-82 | with no empty lists stored, the face is alone under its key exactly when it was noise or its label was not yet a key, and no list becomes empty |
| Pipeline.StoredClusters | project/mine_for_sure.py:56-60 | exactly the dict read from the pickle when the file exists, and the empty dict when it does not |
| Pipeline.Labels | project/mine_for_sure.py:64 | one label, at least -1, per stored encoding plus one for the face |
| Pipeline.Cluster | project/mine_for_sure.py:62-75 | in terms of the face's DBSCAN label: on -1 the key is NewClusterId of the labels and its list is just the face; otherwise the key is the label and its list is the old list (or `[]`) with the face appended; no other key changes; a new key goes last |
| Pipeline.FileUnmatched | project/mine_for_sure.py:62-75 | the step-by-step fallback (flatten, cluster, assign or setdefault-append) ends with exactly the key and dict of `Cluster` and the message of `ClusterReport` |
| Pipeline.Prompted | project/mine_for_sure.py:82 | the naming prompt appears exactly when the face's key holds one encoding (`len(cluster_data.get(key, [])) == 1`) |
| Pipeline.ClusterReport | project/mine_for_sure.py:68-75 | a new-cluster message exactly when the face's label is -1, otherwise the joined cluster's id and its size after the append |
| ForSure.Files | project/mine_for_sure.py:25-28 | a missing directory is created and lists nothing |
| ForSure.KnownGallery | project/mine_for_sure.py:21-34 | the loaded gallery's lists are aligned |
| ForSure.Recognition | project/mine_for_sure.py:18-92 | recognize_face as a function of its inputs: the gallery it loads stays aligned; RecognitionIdentifies and RecognitionStoreWrites state its outcomes |
| ForSure.Filing | project/mine_for_sure.py:55-92 | the fallback always reports a cluster message and dumps the dict at least once |
| ForSure.RecognizeFace | project/mine_for_sure.py:18-92 | the step-by-step function ends in exactly the run `Recognition` defines |
| ForSure.ClusterAndName | project/mine_for_sure.py:55-92 | the clustering, dumping and naming steps end in exactly the run `Filing` defines |
| ForSure.StartRecognition | project/mine_for_sure.py:106-111 | an empty path is refused with no gallery, no dump and no image; otherwise the run is recognize_face's |
| ForSure.RecognitionIdentifies | project/mine_for_sure.py:36-53 | no face exactly when the upload has none; a match exactly when a gallery face is within 0.55, named by the first closest; in both cases no dump, no saved image and the loaded gallery |
| ForSure.RecognitionStoreWrites | project/mine_for_sure.py:77-92 | a filed face is dumped first; an image is saved exactly when the face is alone under its key and the answer is non-empty; then the gallery gains the answer and the face and a second dump lacks the key; otherwise at most one dump and the gallery unchanged |
| ForSure.FilingWrites | project/mine_for_sure.py:77-92 | the same for the filing step on its own: one dump without promotion, two with it |
| ForSure.NoisePrompts | project/mine_for_sure.py:68-82 | a face labelled noise always reaches the naming prompt, alone under its new key |
| ForSure.PromotionShrinksStore | project/mine_for_sure.py:88-92 | after a promotion the second dump holds exactly one encoding fewer than the first |
| ForSure.SpacesOnlyReplyPromotes | project/mine_for_sure.py:83-85 | an answer of one space is not stripped: it promotes under the name " " with image "_.jpg" |
| NumberOne.ScriptRun | project/mine_number_one.py:13-97 | a run of the script keeps the gallery lists aligned |
| NumberOne.ScriptFiling | project/mine_number_one.py:52-97 | the script's filing and naming keep the gallery lists aligned |
| NumberOne.Script | project/mine_number_one.py:13-97 | the statement-by-statement script ends in exactly the run `ScriptRun` defines |
| NumberOne.ScriptClusterAndName | project/mine_number_one.py:52-97 | the script's clustering, naming and final dump end in exactly the run `ScriptFiling` defines |
| NumberOne.ScriptMatchesRecognition | project/mine_number_one.py:16-97 | with the directory present, the script reports, promotes and saves as recognize_face does given the stripped answer, and writes only recognize_face's last dump |
| NumberOne.FilingAgrees | project/mine_number_one.py:79-97 | the same agreement for the filing step on its own |
| NumberOne.MissingDirectoryStops | project/mine_number_one.py:16 | listing a missing directory ends the script with no dump and no image |
| NumberOne.ScriptStoreWrites | project/mine_number_one.py:79-97 | at most one dump, written exactly when the face was not matched; a promotion under the stripped answer exactly when the face is alone under its key and the answer is not blank, and then the dump lacks the key |
| NumberOne.ScriptFilingWrites | project/mine_number_one.py:79-97 | the script's filing step writes exactly one dump, without the face's key exactly when it promotes |
| NumberOne.BlankReplyKeepsSingleton | project/mine_number_one.py:79-82 | a whitespace-only answer skips naming: no image, and the one dump keeps the face alone under its key |
| StudentApp.Recognize | project/final_test.py:90-106 | "No face detected." exactly when the upload has no encoding; a selected student exactly when a gallery face is within tolerance; "No match found." otherwise; the selected name is the first closest and is shown after "Match found: " |
| StudentApp.StudentSystem.constructor | project/final_test.py:11-49 | ends with the loaded gallery (empty when the folder is missing), an empty result label and both selections showing their placeholders |
| StudentApp.StudentSystem.LoadKnownFaces | project/final_test.py:58-74 | both lists are reset; a missing folder is created and leaves them empty; otherwise they hold the case-sensitive ".jpg"/".png"/".jpeg" gallery; the label and selections are untouched |
| StudentApp.StudentSystem.UploadImage | project/final_test.py:85-106 | no file changes nothing; otherwise the label shows the decision and a match also selects the student; the gallery and subject are untouched |
| StudentApp.StudentSystem.PredictGrade | project/final_test.py:108-114 | refused exactly when either selection shows its placeholder, otherwise it goes ahead for the selected pair |
| StudentApp.MatchSelectsGalleryName | project/final_test.py:99-102 | a match selects a gallery name, which is never the student placeholder unless a gallery image is named so |

## Left out

- Face detection, face encodings and `face_distance`'s arithmetic are parameters: an opaque encoding type, a per-file encoder and a distance function. Floating point, NaN and the numerics of distances are not modelled.
- DBSCAN (eps 0.5, min_samples 2, Euclidean) is a parameter. Only its promise is modelled: one label, at least -1, per input point.
- File-system, pickle, cv2 and Tk I/O are not modelled. The listing is a parameter (absent when the directory does not exist), and so is the pickle file's content. Dumps and the saved image's name are recorded in the run's result. The image bytes written by `cv2.imwrite` are not modelled.
- The listing's order is whatever `os.listdir` returns. It is taken as given.
- Message boxes and console output are reduced to the run's `Report`. Their exact texts in the GUI version and the script are not modelled. The student system's label texts are.
- `browse_file` and the file dialogs are not modelled. The selected path, the upload's encodings and the naming answer are parameters.
- `simple_input_dialog` is reduced to its returned answer.
- `load_student_data`, and `predict_grade` beyond its selection guard (pandas look-ups, the regression, plotting and speech), are not part of this model.
- `StudentApp.StudentSystem.UploadImage` takes `compare_faces`' default tolerance as a parameter, since that default belongs to the library and is not part of the code base.
- `Text.Lower` maps only ASCII letters. `str.lower()` on other letters is not modelled.
- `Text.SplitExtRoot` models `os.path.splitext` on bare file names only. Listed names have no directory part, and a name entered with a path separator is not modelled.
- Cluster ids are unbounded integers. numpy's integer label type and its key hashing are not modelled.
- `ForSure.RecognizeFace` and `NumberOne.Script` return the gallery lists in their results. In the source they are a function's locals, dropped on return, and the script's module-level lists, dropped at exit.
- `KnownFaces.SavedImageReloadsAs` covers only the saved image's file name. Whether the next run finds a face in the written JPEG depends on the encoder, which is a parameter.
- `mine_for_sure.py` creates the missing gallery directory. That is modelled as an empty listing, not as the directory's creation.
