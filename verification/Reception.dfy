/** Where the two cores meet: what `receive_upload` leaves behind is what the publication protocol takes as the
    receipt of an upload. */
module Reception {
  import opened Prelude
  import Publication
  import UploadForm
  import ReceiveUpload

  type Receipt = Publication.Receipt

  /** The receipt of a transfer that ended with `r` and left `stored`. */
  function ReceiptOf(
    c: UploadForm.Codec, h: UploadForm.History, r: Outcome<UploadForm.Status>, stored: ReceiveUpload.Stored): Receipt
  {
    match stored
    case Complete(bytes) =>
      if r.Fail? then Publication.CompletionLost(bytes)
      else Publication.Received(Publication.Form(UploadForm.Filename(c, h), UploadForm.Fields(c, h)), bytes)
    case _ => Publication.Aborted(if r.Fail? then r.error else ReceiveUpload.STORAGE)
  }

  /** The protocol's hash is the one the form computes while it streams. */
  ghost predicate SameHash(o: Publication.Oracle, c: UploadForm.Codec) {
    forall bytes :: o.hash(bytes) == c.sha256(bytes)
  }

  /** Taking that receipt, the protocol puts into its bucket exactly the object that was stored, if any, and continues
      with exactly the digest and the size that were computed in the stream, or with the status of the refusal. */
  lemma ReceiptIsFaithful(
    o: Publication.Oracle, c: UploadForm.Codec, p: ReceiveUpload.Parser, chunks: seq<Bytes>, maximumBytes: nat,
    works: nat -> bool, answer: ReceiveUpload.Answer, r: Outcome<UploadForm.Status>, stored: ReceiveUpload.Stored,
    s: Publication.State, key: Publication.Key)
    requires ReceiveUpload.IsTransferred(c, p, chunks, maximumBytes, works, answer, r, stored) && SameHash(o, c)
    requires key in s.uploads && s.uploads[key] == Publication.FRESH
    ensures
      var h := ReceiveUpload.AllEvents(p, chunks);
      var file := UploadForm.FileBytes(c, h);
      var t := Publication.Next(o, s, Publication.Receive(key, ReceiptOf(c, h, r, stored)));
      && t.bucket == (if stored.Complete? then s.bucket[key := stored.bytes] else s.bucket)
      && key in t.uploads
      && var u := t.uploads[key];
      && (u.completed <==> r.Pass?)
      && (r.Pass? ==>
            && stored == ReceiveUpload.Complete(file)
            && u.stage == Publication.Verifying && u.digest == c.sha256(file) && u.size == |file| > 0
            && u.form == Publication.Form(UploadForm.Filename(c, h), UploadForm.Fields(c, h)))
      && (r.Fail? ==>
            && u.stage == Publication.Cleanup && u.reply == Publication.Refused(r.error)
            && (u.fault == Publication.ReceiveUncertain <==> stored.Complete?))
  {
    var h := ReceiveUpload.AllEvents(p, chunks);
    var receipt := ReceiptOf(c, h, r, stored);
    NextIsReceive(o, s, key, receipt);
  }

  lemma NextIsReceive(o: Publication.Oracle, s: Publication.State, key: Publication.Key, receipt: Receipt)
    requires key in s.uploads && s.uploads[key] == Publication.FRESH
    ensures
      var t := Publication.Next(o, s, Publication.Receive(key, receipt));
      && key in t.uploads && t.uploads[key] == Publication.AfterReceive(o, Publication.FRESH, receipt)
      && t.bucket == match receipt
                     case Received(_, bytes) => if bytes == [] then s.bucket else s.bucket[key := bytes]
                     case Aborted(_) => s.bucket
                     case CompletionLost(bytes) => s.bucket[key := bytes]
  {
  }

  /** What the caller of `receive_upload` holds is what that receipt says. */
  lemma FormIsReceipt(
    c: UploadForm.Codec, p: ReceiveUpload.Parser, chunks: seq<Bytes>, form: UploadForm.UploadForm,
    u: ReceiveUpload.MultipartUpload)
    requires ReceiveUpload.IsReceived(c, p, chunks, form, u)
    ensures ReceiptOf(c, ReceiveUpload.AllEvents(p, chunks), Pass, u.stored) ==
            Publication.Received(Publication.Form(form.filename, form.fields), form.hashed)
    ensures form.size == |form.hashed|
  {
  }
}
