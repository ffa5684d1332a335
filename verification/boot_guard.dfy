/** The one-time boot validation of `ota_task`: a freshly updated image that
    the bootloader started in the "pending verify" state is accepted at once,
    without any check and without a grace period, and rollback is never
    requested. */
module BootGuard {
  import opened Common

  /** `esp_ota_img_states_t`. */
  datatype ImgState = New | PendingVerify | Valid | Invalid | Aborted | Undefined

  /** The two OTA calls that settle a pending image. */
  datatype OtaCall = MarkValidCancelRollback | MarkInvalidRollbackAndReboot

  /** The calls `ota_task` makes, given the answer of
      `esp_ota_get_state_partition` for the running partition (`None` when
      the query does not return `ESP_OK`). */
  function OtaTaskCalls(query: Option<ImgState>): (calls: seq<OtaCall>)
    ensures |calls| <= 1
    ensures MarkValidCancelRollback in calls <==> query == Some(PendingVerify)
    ensures MarkInvalidRollbackAndReboot !in calls
  {
    if query == Some(PendingVerify) then [MarkValidCancelRollback] else []
  }

  /** The state of the running image after the calls, as the OTA library
      defines them: confirming a pending image makes it valid; a rollback
      request invalidates it (and reboots). */
  function Apply(state: ImgState, calls: seq<OtaCall>): (r: ImgState)
    decreases |calls|
  {
    if |calls| == 0 then state
    else
      var next := match calls[0]
        case MarkValidCancelRollback => if state == PendingVerify then Valid else state
        case MarkInvalidRollbackAndReboot => Invalid;
      Apply(next, calls[1..])
  }

  /** One run of `ota_task` against an image in `state` whose query succeeds. */
  function ValidateOnBoot(state: ImgState): (r: ImgState)
    ensures r != PendingVerify
    ensures r != Invalid || state == Invalid
    ensures state != PendingVerify ==> r == state
  {
    var calls := OtaTaskCalls(Some(state));
    if state == PendingVerify then
      assert calls[1..] == [];
      assert Apply(Valid, []) == Valid;
      Apply(state, calls)
    else
      Apply(state, calls)
  }

  /** A pending image is confirmed on its first boot, and the next boot has
      nothing left to do. */
  lemma PendingImageSettles(state: ImgState)
    ensures state == PendingVerify ==> ValidateOnBoot(state) == Valid
    ensures OtaTaskCalls(Some(ValidateOnBoot(state))) == []
    ensures ValidateOnBoot(ValidateOnBoot(state)) == ValidateOnBoot(state)
  {
  }

  /** When the state query fails nothing is confirmed, whatever the image. */
  lemma FailedQueryConfirmsNothing(state: ImgState)
    ensures Apply(state, OtaTaskCalls(None)) == state
  {
  }
}
