# Photo and video analysis server: a Dafny model of its own logic

The server accepts an uploaded photo or video and runs a pretrained object
detector over it. It draws the detections onto the image, stores the annotated
photo in the `analyzed_photos` directory, tells connected clients that a new
result exists, and serves the stored photos back as a gallery. Detection,
drawing, codecs, the web framework and the push channel are external services.
This project models the logic the server itself adds to them, all of it in
`src/app/server.py`:

- `predicted_classes` (module `PredictedClasses`, file `predicted_classes.dfy`).
  It counts the class ids of a list of detections and re-keys the counts by
  class name. A detection is modelled by its class id alone. The class table is
  a `map<int, string>`, because the detector's `names` table is a dictionary.
  An id the table lacks raises `KeyError` in the source; here it gives
  `Err(id)`. The source's `Counter` is modelled by two things. The multiset of
  the ids gives its counts. `FirstOccurrences` gives its iteration order, which
  is the order in which ids are first seen. The method `PredictedClassNames`
  does the counting that `Counter` performs, then runs the source's renaming
  loop. It is proved equal to the function `Histogram`.
  Lemmas about `Histogram` state the error case, the keys, the values and
  their sum.
- The dispatch of `POST /analyze` (module `Router`). The request is reduced
  to whether a `file` part is present and to the `selectedModel` field, which
  may be absent. The result is the photo pipeline, the video pipeline, or a 400
  answer with the source's message.
- The stored photo's path in `analyze_photo` (module `Storage`). This is
  `os.path.join('analyzed_photos', 'analyzed_photo_' + id + '.jpg')`, with
  `os.path.join` given its POSIX meaning. `PhotoIdOf` is its inverse. Together
  they prove that distinct identifiers give distinct paths.
- `GET /photo_list` (module `Gallery`). The results directory is given as its
  listing, a sequence of (name, bytes) entries in `os.listdir` order. The
  listing is None when the directory does not exist yet. Only the photo
  pipeline creates it, so before the first photo analysis the endpoint fails;
  the model returns `Err(DirectoryMissing)` there. The
  method `GetPhotoList` has the source's loop. It skips entries named exactly
  `.DS_Store` and appends `data:image/jpeg;base64,` followed by the encoding of
  the file's bytes. The Base64 encoder of section 4 of RFC 4648 is a parameter.

`Wrappers` holds the `Option` and `Result` datatypes the other modules share.

`predicted_classes` is not called by any handler in this file. It is modelled
as written.

## Model

| member | source | states |
|---|---|---|
| PredictedClasses.PredictedClassNames | src/app/server.py:55-68 | The counting done by `Counter` and the renaming loop return exactly `Histogram(ids, names)`: the error for the first unnamed id, or the name-to-count dictionary |
| PredictedClasses.FirstOccurrences | src/app/server.py:60-61 | The Counter's iteration order lists every detected id once and nothing else |
| PredictedClasses.HistogramMissingClass | src/app/server.py:65-66 | The lookup fails if and only if some box's class id is absent from the table. The id it fails on is the first such id in box order |
| PredictedClasses.HistogramEmpty | src/app/server.py:60-68 | No boxes give the empty dictionary |
| PredictedClasses.HistogramKeys | src/app/server.py:64-66 | On success every detected id has a name, and the keys are exactly the names of the detected ids |
| PredictedClasses.HistogramCounts | src/app/server.py:60-66 | Every value is at least 1. It is the number of boxes of some detected class bearing that name |
| PredictedClasses.HistogramInjective | src/app/server.py:60-66 | When no two ids share a name, each detected class's name maps to the number of boxes of that class |
| PredictedClasses.HistogramTotal | src/app/server.py:60-66 | When no two ids share a name, the values add up to the number of boxes |
| PredictedClasses.HistogramTotalBound | src/app/server.py:60-66 | The values never add up to more than the number of boxes, because shared names overwrite rather than add |
| PredictedClasses.CounterTotal | src/app/server.py:60-61 | The Counter's counts, taken in its iteration order, add up to the number of ids counted |
| PredictedClasses.FirstOccurrencesUnnamed | src/app/server.py:65-66 | The first unnamed id in Counter order is the first unnamed id in box order |
| PredictedClasses.NameCountsError | src/app/server.py:65-66 | The renaming loop fails exactly when an id lacks a name, and at the first such id |
| PredictedClasses.NameCountsKeys | src/app/server.py:65-66 | The renaming loop adds exactly the names of the ids it visits as keys |
| PredictedClasses.NameCountsValues | src/app/server.py:65-66 | Each value the renaming loop leaves is either untouched or the count of an id bearing that name |
| PredictedClasses.NameCountsKeeps | src/app/server.py:65-66 | A key that no visited id names keeps its earlier value |
| PredictedClasses.NameCountsInjective | src/app/server.py:65-66 | With distinct names, each visited id's name holds that id's count |
| PredictedClasses.NameCountsTotal | src/app/server.py:65-66 | The renaming loop adds at most the counts it stores to the total, and exactly those when no name is stored twice |
| Router.Analyze | src/app/server.py:71-87 | With no file the answer is ('No file uploaded', 400), whatever the selector. With a file, exactly 'photo' selects the photo pipeline and exactly 'video' the video pipeline. Any other selector, absent included, gives ('Invalid model selection', 400). Every rejection is a 400 with a non-empty message |
| Router.FileCheckComesFirst | src/app/server.py:74-75 | Without a file the answer does not depend on the selector |
| Storage.PhotoFileName | src/app/server.py:121-122 | The stored file name starts with 'a', so it is never '.DS_Store'. Its length is prefix plus id plus suffix |
| Storage.PhotoPath | src/app/server.py:119-122 | The stored photo's path is 'analyzed_photos' + '/' + the file name: the join inserts exactly one separator |
| Storage.PhotoPathRoundTrip | src/app/server.py:121-122 | The identifier can be read back from the path it was used to build |
| Storage.PhotoIdOfSound | src/app/server.py:121-122 | Every path the inverse accepts is the stored path of the identifier it returns |
| Storage.PhotoPathInjective | src/app/server.py:116-122 | Distinct identifiers give distinct paths, so one photo analysis never overwrites another's result |
| Storage.PhotoPathsDistinct | src/app/server.py:116-122 | A run of analyses with pairwise distinct identifiers writes pairwise distinct files |
| Gallery.GetPhotoList | src/app/server.py:31-44 | It fails if and only if the results directory does not exist, where `os.listdir` raises. Otherwise the loop returns `PhotoData(dir)`. There is one element per entry not named '.DS_Store', and each element starts with 'data:image/jpeg;base64,' |
| Gallery.Listed | src/app/server.py:37-38 | An entry is kept if and only if it is in the listing and its name is not exactly '.DS_Store' |
| Gallery.ListedAppend | src/app/server.py:37-42 | Filtering a listing split in two is filtering each half in turn, so kept entries keep their listing order |
| Gallery.ListedCount | src/app/server.py:37-38 | The number of kept entries is the number of positions whose name is not '.DS_Store' |
| Gallery.PhotoDataSnoc | src/app/server.py:37-42 | One more entry appends its data URI at the end, unless its name is '.DS_Store' |
| Gallery.PhotoDataPrefix | src/app/server.py:42 | Every element of the array starts with 'data:image/jpeg;base64,' |
| Gallery.StoredPhotoIsListed | src/app/server.py:37-42 | A photo stored under the photo pipeline's file name always appears in the gallery, whatever its bytes |

## Left out

- YOLO model loading and inference (`YOLO(...)`, `model.predict`, `model(frame)`) are left out. They are an external neural network with floating-point output. The model starts from the class ids it produces.
- OpenCV image and video I/O and drawing are left out: `imread`, `imwrite`, `VideoCapture`, `VideoWriter`, `rectangle`, `putText` and `Annotator`. They are foreign library calls on pixel buffers. `analyze_video`'s frame loop has no logic of its own beyond reading until no frame is returned. It passes the uploaded file object where a path is expected, and it writes to the path it reads from; neither is modelled.
- Temporary files, `os.makedirs`, `os.unlink`, `send_file` and reading the configuration file are left out. They are filesystem I/O.
- The Socket.IO notification (`handle_new_photo_analyzed`) is left out. It is a network broadcast with no payload.
- Flask request parsing, CORS and the HTTP response objects are left out. The router sees only whether a file is present and the selector string. What Flask does with the `None` that `analyze` returns on the video route is not modelled. The code returns `None`; the route is not an explicitly built empty success.
- `uuid.uuid4().hex` is left out. The identifier is a parameter, and distinctness is the only property assumed of it (`Storage.PhotoPathsDistinct`).
- `base64.b64encode(...).decode("utf-8")` is a parameter of type `seq<byte> -> string`. Its output is not checked against section 4 of RFC 4648.
- Gallery.GetPhotoList: a missing results directory is modelled, but every listed entry is assumed to be a readable file. `open` failing on an unreadable file or on a subdirectory (which `os.listdir` can also list) is not modelled.
- `os.path.join` is modelled for POSIX separators only.
- PredictedClasses.HistogramCounts: when several ids share a name, it says that the value is the count of some id bearing that name. It does not say which one. The source keeps the count of the last such id in Counter order.
- The class table is a map, as the detector's dictionary is. Python's negative list indexing is therefore not modelled.
