/** The OCR capability of ocr/ocr.py. The recognition engine is an opaque
    function of the file it reads; `read_image` turns every ordinary engine
    failure into a textual error marker and lets only an exception that escapes
    its `except Exception` handler propagate. */
module Ocr {
  import Utils

  /** Language passed to the engine by default (ocr/ocr.py:4). */
  const DEFAULT_LANG: string := "eng"

  /** What one call of the engine does: return text, raise an `Exception`
      (described by its `str`), or raise something the handler does not catch. */
  datatype EngineResult = Recognized(text: string) | Failed(reason: string) | Escaped(reason: string)

  /** The engine, as a function of the path, the bytes stored there and the
      language. */
  type Engine = (Utils.Path, Utils.Bytes, string) -> EngineResult

  /** What awaiting `read_image` yields: a string, or an exception. */
  datatype Recognition = Text(text: string) | Raised(reason: string)

  const ERROR_PREFIX: string := "[ERROR] Unable to process file: "

  /** The marker returned instead of raising (ocr/ocr.py:10). */
  function ErrorMarker(path: Utils.Path, reason: string): (m: string) {
    ERROR_PREFIX + path + ". Exception: " + reason
  }

  /** The marker starts with the fixed prefix and names both the path and the
      exception. */
  lemma ErrorMarkerNamesPath(path: Utils.Path, reason: string)
    ensures var m := ErrorMarker(path, reason);
            |m| >= |ERROR_PREFIX| && m[..|ERROR_PREFIX|] == ERROR_PREFIX
            && Utils.Contains(m, path) && Utils.Contains(m, reason)
  {
    var m := ErrorMarker(path, reason);
    assert Utils.OccursAt(m, path, |ERROR_PREFIX|);
    assert Utils.OccursAt(m, reason, |m| - |reason|);
  }

  /** `read_image` (ocr/ocr.py:4-12). */
  function ReadImage(engine: Engine, path: Utils.Path, content: Utils.Bytes, lang: string := DEFAULT_LANG): (r: Recognition)
  {
    match engine(path, content, lang)
    case Recognized(text) => Text(text)
    case Failed(reason) => Text(ErrorMarker(path, reason))
    case Escaped(reason) => Raised(reason)
  }

  /** `read_image` raises only when the engine's exception escapes the handler;
      otherwise its text is the engine's text or, for a caught failure, a
      marker naming the path. */
  lemma ReadImageOutcome(engine: Engine, path: Utils.Path, content: Utils.Bytes, lang: string)
    ensures ReadImage(engine, path, content, lang).Raised? <==> engine(path, content, lang).Escaped?
    ensures engine(path, content, lang).Recognized? ==>
              ReadImage(engine, path, content, lang) == Text(engine(path, content, lang).text)
    ensures engine(path, content, lang).Failed? ==>
              var t := ReadImage(engine, path, content, lang).text;
              t[..|ERROR_PREFIX|] == ERROR_PREFIX && Utils.Contains(t, path)
  {
    if engine(path, content, lang).Failed? {
      ErrorMarkerNamesPath(path, engine(path, content, lang).reason);
    }
  }
}
