/** One row of the file list (src/compoments/FileItem.tsx): the five-status lookup tables of
    its action button, the cursor and progress-bar rules, and the button's label state with
    its hover behaviour. */
module FileItem {
  import opened Wrappers
  import opened Web

  /** Per-file status as FileItem.tsx declares it. */
  datatype FileStatus = Ready | Waiting | Converting | Converted | Error

  /** The data a row shows. */
  datatype FileItemInfo = FileItemInfo(data: SourceFile, status: FileStatus, progress: real, convertedBlob: Option<Blob>, error: Option<string>)

  /** The two callbacks a row is given. */
  datatype Handler = RemoveHandler | DownloadHandler

  /** A call of one of those callbacks with the row's id. */
  datatype Call = FileRemove(id: int) | DownloadFile(id: int)

  /** The button's text: a fixed string, or the progress percentage while converting
      (its `toFixed(2)` rendering is left abstract). */
  datatype Label = Text(text: string) | Percent(progress: real)

  const RemoveLabel: Label := Text("Remove")

  /** `handlerMap`: remove for ready and failed files, download for converted ones, nothing
      while a file waits or converts. */
  function HandlerFor(status: FileStatus): (h: Option<Handler>)
    ensures h == Some(RemoveHandler) <==> status == Ready || status == Error
    ensures h == Some(DownloadHandler) <==> status == Converted
    ensures h == None <==> status == Waiting || status == Converting
  {
    match status
    case Ready => Some(RemoveHandler)
    case Waiting => None
    case Converting => None
    case Converted => Some(DownloadHandler)
    case Error => Some(RemoveHandler)
  }

  /** `variantMap`: success outline when converted, danger on error, the secondary outline otherwise. */
  function Variant(status: FileStatus): (v: string)
    ensures v == "outline-success" <==> status == Converted
    ensures v == "danger" <==> status == Error
    ensures v == "outline-secondary" <==> status != Converted && status != Error
  {
    match status
    case Ready => "outline-secondary"
    case Waiting => "outline-secondary"
    case Converting => "outline-secondary"
    case Converted => "outline-success"
    case Error => "danger"
  }

  /** `labelMap`: the label a status shows when nothing hovers over the button. */
  function BaseLabel(status: FileStatus, progress: real): Label
  {
    match status
    case Ready => Text("-")
    case Waiting => Text("..waiting..")
    case Converting => Percent(progress)
    case Converted => Text("Download")
    case Error => Text("Error")
  }

  /** Reads a base label back as the status that shows it; "Remove" and other texts are no status. */
  function StatusShown(current: Label): Option<FileStatus>
  {
    match current
    case Percent(_) => Some(Converting)
    case Text(t) =>
      if t == "-" then Some(Ready)
      else if t == "..waiting.." then Some(Waiting)
      else if t == "Download" then Some(Converted)
      else if t == "Error" then Some(Error)
      else None
  }

  /** The label after `handleMouseEnter`. */
  function EnterLabel(status: FileStatus, current: Label): Label
  {
    if status == Ready || status == Error then RemoveLabel else current
  }

  /** The label after `handleMouseLeave`. */
  function LeaveLabel(status: FileStatus, current: Label): Label
  {
    if status == Ready then Text("-")
    else if status == Error then Text("Error")
    else current
  }

  /** The button's cursor: "wait" while the file waits or converts, "pointer" otherwise. */
  function Cursor(status: FileStatus): string
  {
    if status == Converting || status == Waiting then "wait" else "pointer"
  }

  /** The progress bar's CSS visibility. */
  function ProgressVisibility(status: FileStatus): string
  {
    if status == Converting then "visible" else "hidden"
  }

  /** The label table is a round trip: every base label reads back as its own status, and
      the hover label "Remove" is not the base label of any status. */
  lemma BaseLabelRoundTrip(status: FileStatus, progress: real)
    ensures StatusShown(BaseLabel(status, progress)) == Some(status)
    ensures StatusShown(RemoveLabel) == None
    ensures BaseLabel(status, progress).Percent? <==> status == Converting
  {
  }

  /** Entering and then leaving restores the base label for every status; for ready and
      failed files leaving restores it whatever the label was. */
  lemma HoverRestoresBaseLabel(status: FileStatus, progress: real, current: Label)
    ensures LeaveLabel(status, EnterLabel(status, BaseLabel(status, progress))) == BaseLabel(status, progress)
    ensures status == Ready || status == Error ==> LeaveLabel(status, current) == BaseLabel(status, progress)
  {
  }

  /** The hover label is "Remove" exactly when a click would remove the file; for every
      other status hovering leaves the label alone. */
  lemma HoverShowsRemoveOnlyWhenClickRemoves(status: FileStatus, progress: real, current: Label)
    ensures EnterLabel(status, BaseLabel(status, progress)) == RemoveLabel <==> HandlerFor(status) == Some(RemoveHandler)
    ensures HandlerFor(status) != Some(RemoveHandler) ==> EnterLabel(status, current) == current && LeaveLabel(status, current) == current
  {
  }

  /** The cursor shows a pointer exactly when a click has a handler, and waits exactly for a
      waiting or converting file. */
  lemma CursorMatchesHandler(status: FileStatus)
    ensures HandlerFor(status).Some? <==> Cursor(status) == "pointer"
    ensures Cursor(status) == "wait" <==> status == Waiting || status == Converting
  {
  }

  /** The progress bar is visible exactly while the file converts, and hidden otherwise. */
  lemma ProgressBarShownWhileConverting(status: FileStatus)
    ensures ProgressVisibility(status) == "visible" <==> status == Converting
    ensures ProgressVisibility(status) == "hidden" <==> status != Converting
  {
  }

  /** `ActionButton`: the props of one row and the label and variant state it keeps. */
  class ActionButton {
    var id: int
    var file: FileItemInfo
    var currentLabel: Label
    var variant: string

    /** Mounting: both effects have run, so the button shows the table values for its status. */
    constructor (id: int, file: FileItemInfo)
      ensures this.id == id && this.file == file
      ensures currentLabel == BaseLabel(file.status, file.progress) && variant == Variant(file.status)
    {
      this.id, this.file := id, file;
      currentLabel := BaseLabel(file.status, file.progress);
      variant := Variant(file.status);
    }

    /** New props: the variant effect reruns when the status changed, the label effect when
        the status or the progress changed; otherwise the state is kept. */
    method SetFile(newFile: FileItemInfo)
      modifies this
      ensures id == old(id) && file == newFile
      ensures variant == if newFile.status != old(file).status then Variant(newFile.status) else old(variant)
      ensures currentLabel ==
        if newFile.status != old(file).status || newFile.progress != old(file).progress
        then BaseLabel(newFile.status, newFile.progress) else old(currentLabel)
    {
      var previous := file;
      file := newFile;
      if newFile.status != previous.status {
        variant := Variant(newFile.status);
      }
      if newFile.status != previous.status || newFile.progress != previous.progress {
        currentLabel := BaseLabel(newFile.status, newFile.progress);
      }
    }

    /** `handleActionLayerClick`: calls the status's handler with the row id, if there is one. */
    method HandleActionLayerClick() returns (call: Option<Call>)
      ensures call == Some(FileRemove(id)) <==> file.status == Ready || file.status == Error
      ensures call == Some(DownloadFile(id)) <==> file.status == Converted
      ensures call == None <==> Cursor(file.status) == "wait"
    {
      var handler := HandlerFor(file.status);
      match handler
      case None => call := None;
      case Some(RemoveHandler) => call := Some(FileRemove(id));
      case Some(DownloadHandler) => call := Some(DownloadFile(id));
    }

    /** `handleMouseEnter`: "Remove" for ready and failed files, no change otherwise. */
    method HandleMouseEnter()
      modifies this`currentLabel
      ensures currentLabel == EnterLabel(file.status, old(currentLabel))
    {
      if file.status == Ready || file.status == Error {
        currentLabel := RemoveLabel;
      }
    }

    /** `handleMouseLeave`: back to "-" or "Error" for ready and failed files, no change otherwise. */
    method HandleMouseLeave()
      modifies this`currentLabel
      ensures currentLabel == LeaveLabel(file.status, old(currentLabel))
    {
      if file.status == Ready {
        currentLabel := Text("-");
      } else if file.status == Error {
        currentLabel := Text("Error");
      }
    }
  }
}
