/** The controller state of the heatmap window: the text box, the status
    label, the image label and whether the save button is enabled, and the
    four button handlers that change them. Rendering, the CSV reader, the
    file dialogs and the file move are outside the model; each handler
    takes their outcome as a parameter, so every combination of success and
    failure is covered. */
module Heatmap {
  import opened Wrappers
  import opened GridParser

  /** The status label text at start-up. */
  const WaitingStatus := "Waiting for input..."
  /** The status after a successful render. */
  const GeneratedStatus := "\U{2705} Heatmap generated successfully."
  /** The status after `clear_all`. */
  const ClearedStatus := "Cleared."
  /** The status while a loaded CSV file is rendered. */
  const CsvLoadedStatus := "CSV file loaded. Generating heatmap..."
  /** The status while parsed text is rendered. */
  const GeneratingStatus := "Generating heatmap from text..."
  /** The scratch file every render overwrites. */
  const TempFile := "heatmap_temp.png"

  /** The status after the rendered image was moved to `path`. */
  function SavedStatus(path: string): string
  {
    "\U{2705} Heatmap saved: " + path
  }

  class HeatmapApp {
    /** Contents of the text box. */
    var text: string
    /** Text of the status label. */
    var status: string
    /** The image label shows a rendered heatmap. */
    var imageShown: bool
    /** The save button is enabled. */
    var saveEnabled: bool
    /** Path of the scratch image. */
    const heatmapFile: string

    /** Saving is only offered while a rendered heatmap is on screen. */
    ghost predicate Valid()
      reads this
    {
      saveEnabled ==> imageShown
    }

    /** The window as it opens: empty text box and image, waiting status,
        save disabled. */
    constructor ()
      ensures Valid()
      ensures text == "" && status == WaitingStatus && !imageShown && !saveEnabled
      ensures heatmapFile == TempFile
    {
      text := "";
      status := WaitingStatus;
      imageShown := false;
      saveEnabled := false;
      heatmapFile := TempFile;
    }

    /** The user edits the text box. */
    method EditText(s: string)
      requires Valid()
      modifies this`text
      ensures Valid()
      ensures text == s
    {
      text := s;
    }

    /** `show_heatmap`: render to the scratch file and display it. When the
        renderer raises, the exception reaches the caller before any widget
        has changed. On success the image is shown, save is enabled and the
        status reports success. */
    method ShowHeatmap(render: Outcome) returns (out: Outcome)
      requires Valid()
      modifies this`status, this`imageShown, this`saveEnabled
      ensures Valid()
      ensures out == render
      ensures render.Done? ==> imageShown && saveEnabled && status == GeneratedStatus
      ensures render.Raised? ==>
        imageShown == old(imageShown) && saveEnabled == old(saveEnabled) && status == old(status)
    {
      if render.Raised? {
        return render;
      }
      imageShown := true;
      saveEnabled := true;
      status := GeneratedStatus;
      return Done;
    }

    /** `load_file`: a cancelled dialog (empty path) changes nothing; a read
        or render error is reported as `"Error: ..."` and leaves the image
        and the save button as they were. The text box is never touched. */
    method LoadFile(path: string, read: Outcome, render: Outcome)
      requires Valid()
      modifies this`status, this`imageShown, this`saveEnabled
      ensures Valid()
      ensures path == "" ==>
        status == old(status) && imageShown == old(imageShown) && saveEnabled == old(saveEnabled)
      ensures path != "" && read.Raised? ==>
        status == "Error: " + read.message &&
        imageShown == old(imageShown) && saveEnabled == old(saveEnabled)
      ensures path != "" && read.Done? && render.Raised? ==>
        status == "Error: " + render.message &&
        imageShown == old(imageShown) && saveEnabled == old(saveEnabled)
      ensures path != "" && read.Done? && render.Done? ==>
        status == GeneratedStatus && imageShown && saveEnabled
    {
      if path != "" {
        if read.Raised? {
          status := "Error: " + read.message;
        } else {
          status := CsvLoadedStatus;
          var out := ShowHeatmap(render);
          if out.Raised? {
            status := "Error: " + out.message;
          }
        }
      }
    }

    /** `generate_from_text`: parse the text box; a bad token or a render
        error is reported as `"Input error: ..."` and leaves the image and
        the save button as they were; a successful render shows the image
        and enables save. The text box is never touched. */
    method GenerateFromText<T>(toFloat: Converter<T>, render: Outcome)
      requires Valid()
      modifies this`status, this`imageShown, this`saveEnabled
      ensures Valid()
      ensures Parse(text, toFloat).Failure? ==>
        status == "Input error: " + Message(Parse(text, toFloat).error) &&
        imageShown == old(imageShown) && saveEnabled == old(saveEnabled)
      ensures Parse(text, toFloat).Success? && render.Raised? ==>
        status == "Input error: " + render.message &&
        imageShown == old(imageShown) && saveEnabled == old(saveEnabled)
      ensures Parse(text, toFloat).Success? && render.Done? ==>
        status == GeneratedStatus && imageShown && saveEnabled
    {
      var parsed := ParseText(text, toFloat);
      match parsed {
        case Failure(e) =>
          status := "Input error: " + Message(e);
        case Success(grid) =>
          status := GeneratingStatus;
          var out := ShowHeatmap(render);
          if out.Raised? {
            status := "Input error: " + out.message;
          }
      }
    }

    /** `save_heatmap`: a cancelled dialog (empty path) changes nothing; a
        successful move of the scratch image to `path` reports the path and
        disables save until the next render; a failed move reports
        `"Save error: ..."` and leaves save as it was. The image and the
        text box are never touched. */
    method SaveHeatmap(path: string, move: Outcome)
      requires Valid()
      modifies this`status, this`saveEnabled
      ensures Valid()
      ensures path == "" ==> status == old(status) && saveEnabled == old(saveEnabled)
      ensures path != "" && move.Done? ==> status == SavedStatus(path) && !saveEnabled
      ensures path != "" && move.Raised? ==>
        status == "Save error: " + move.message && saveEnabled == old(saveEnabled)
    {
      if path != "" {
        if move.Done? {
          status := SavedStatus(path);
          saveEnabled := false;
        } else {
          status := "Save error: " + move.message;
        }
      }
    }

    /** `clear_all`: whatever the state before, the text box and the image
        are emptied, the status reads "Cleared." and save is disabled; so
        clearing twice is clearing once. */
    method ClearAll()
      requires Valid()
      modifies this`text, this`status, this`imageShown, this`saveEnabled
      ensures Valid()
      ensures text == "" && !imageShown && status == ClearedStatus && !saveEnabled
    {
      text := "";
      imageShown := false;
      status := ClearedStatus;
      saveEnabled := false;
    }
  }

  /** A fresh window given text that parses and renders: before the render
      save is unavailable; after it the heatmap is shown and save is
      offered. */
  method ExampleFirstRender<T>(toFloat: Converter<T>, good: string) returns (app: HeatmapApp)
    requires Parse(good, toFloat).Success?
    ensures fresh(app) && app.Valid()
    ensures app.text == good && app.imageShown && app.saveEnabled && app.status == GeneratedStatus
  {
    app := new HeatmapApp();
    assert !app.saveEnabled && !app.imageShown;
    app.EditText(good);
    app.GenerateFromText(toFloat, Done);
  }

  /** Text with a bad cell, entered while a heatmap is shown and save is
      offered, reports the cell and keeps the image and the save button. */
  method ExampleRejectText<T>(app: HeatmapApp, toFloat: Converter<T>, bad: string)
    requires app.Valid() && app.imageShown && app.saveEnabled
    requires Parse(bad, toFloat).Failure?
    modifies app`text, app`status, app`imageShown, app`saveEnabled
    ensures app.Valid() && app.text == bad && app.imageShown && app.saveEnabled
    ensures app.status == "Input error: " + Message(Parse(bad, toFloat).error)
  {
    app.EditText(bad);
    app.GenerateFromText(toFloat, Done);
    assert app.status == "Input error: " + Message(Parse(app.text, toFloat).error);
  }

  /** A session: text that parses and renders enables save; text with a
      bad cell then reports that cell and keeps the image and the save
      button; saving disables save; clear resets everything.
      `ExampleSquareGrid` and `ExampleBadCell` give texts such as
      `"1,2\n3,4"` and `"1,2\n3,x"` that meet the two requirements, and
      `ExampleBadCellMessage` spells out the second one's status. */
  method ExampleSession<T>(toFloat: Converter<T>, good: string, bad: string)
    requires Parse(good, toFloat).Success?
    requires Parse(bad, toFloat).Failure?
  {
    var app := ExampleFirstRender(toFloat, good);
    ExampleRejectText(app, toFloat, bad);
    assert app.saveEnabled && app.imageShown && app.text == bad;
    app.SaveHeatmap("heatmap.png", Done);
    assert !app.saveEnabled && app.imageShown && app.status == SavedStatus("heatmap.png");
    app.ClearAll();
    assert app.text == "" && !app.imageShown && !app.saveEnabled && app.status == ClearedStatus;
  }
}
