# Verification of the wheelguard core

wheelguard is a package index proxy with a private side. This project models the three parts of it that decide
whether its central claim holds: bytes are published only if they were fully verified, and served only while policy
permits. The models are in Dafny 4.11; `dafny verify dfyconfig.toml` checks all of them.

**Streaming verifiers.** `TarScanner` is the resumable tar scanner: a byte automaton (`Push`, `Absorb`) is the
meaning, the class `TarMetadata` is the buffered loop, and `Feed` is proved to compute the automaton. `SourceArchive`
is a grammar of tar streams, with the theorem that a stream is accepted with some content exactly when it is an archive
of that grammar with that content; the block layout is the ustar Interchange Format described under `pax` in IEEE Std
1003.1. `GzipSource` adds the decompression loop and its expansion bound. `ZipArchive` lays out a ZIP file as a
writer does, after sections 4.3.7 and 4.3.16 of PKWARE's APPNOTE; `ZipMetadata` says what it means for a whole file to
be such an archive (`ZipNames` in terms of names and recorded fields); `ZipReader` reads the tail window, the directory
and one member by ranges, and is proved to answer exactly what the whole file says. `UploadForm` and `ReceiveUpload` model the multipart form and the double re-slicing
of a body into parser chunks and storage parts; `FormRoundTrip` states what they make of a form in terms of the parts
its sender sent. `Distributions` puts file name, form fields and archive metadata
together: what it accepts as a release is defined by the two archive grammars.

**The private publication protocol.** `Publication` is a step relation over projects, artifacts, audit log, bucket
and the locals of every upload and approval. A run is any list of labels, so any number of uploads and approvals
interleave; a write may be applied, lost (applied, but the client sees an exception) or failed. An upload whose labels
stop coming is a crashed worker. `PublicationSafety` and `PublicationSteps` hold the invariant and its preservation,
`PublicationResults` what follows for whole runs, `UploadTurns` what one upload does when nobody interferes.
`PrivatePackages` is the code itself, with its three flags and its finally clause, proved to execute runs of the
protocol for every environment. `PrivateService` relates the PostgreSQL transaction to the D1 batch.
`Reception` turns the outcome of `ReceiveUpload` into the receipt the protocol starts from.
`PublishedDistributions` joins both parts: whatever is published or served is an archive of the grammar, of exactly the
file, project and version of its catalog row.

**Release policy and the download gate.** `ReleasePolicy`, `Vulnerabilities` and `AdvisoryCache` model what a project
listing shows; `DownloadGate` models the later decision about one artifact and relates the two, and `Registration` the
rows by which it decides. A version
has an ordering key and a text: overrides and advisories go by text, the sets of hidden and visible versions by key.
`Overrides` is the table of administrator overrides with its audit log.

Where the code does less than a reader may expect, the exact condition is proved, and a lemma shows an input:

- The search of the ZIP reader stops at the end record of an archive exactly when the signature does not occur again
  behind its start (`WindowHoldsRecord`); a comment is enough to lose the archive (`CommentLosesMetadata`). Archives with
  65535 entries or a directory over 1 MiB are refused in any case, as `IsWritten` says.
- The fallback can leave a listing without clean files when upload times are missing (`FallbackAvailable`,
  `UntimedSuppressesFallback`).
- Listing and gate look up the advisory scan in different ways. They agree unless the service failed while a scan of
  other versions was stored (`GateRefinesListing`); then the gate may serve what the listing hides
  (`ErrorServesHidden`).
- Unless an administrator allowed the release, the gate denies links that a listing offers for a clean file: on a hit
  when the scan is exactly as old as the TTL (`GapExactlyAtTtl`), on a stale scan always, and after an error unless a
  fresh scan of other versions clears the release (`LinkByStatus`, `OldScanNotServed`). The link of a file whose digest
  is not lower case works only if its release is allowed, or the file is shown again with the folded digest
  (`MixedCaseDigest`, `MixedCaseDenied`).
- Of all files of a listing with the same folded digest and name, the last one leaves its row. For artifacts these rows
  coincide (`ArtifactStored`); a metadata sidecar may be denied because another file took its row over
  (`SidecarLinkWorks`, `SidecarReplaced`, `SidecarUnnamed`), and works like its artifact if none does
  (`UndisputedSidecarWorks`).
- Besides the objects of catalog rows and of uploads on their way, the bucket holds exactly the objects of uploads whose
  multipart completion was lost, whose delete failed, or whose commit is uncertain; an uncertain commit that took effect
  has a row as well (`EveryObject`; for states with every upload finished `Conservation`,
  `OnlyUncertainCommitsRemain`, `LostCompletionRemains`).

## Model

| member | source | states |
|---|---|---|
| TarScanner.AbsorbSplit | src/wheelguard/distributions.py:115-156 | From any scanner state, feeding `a` then `b` gives the same state or the same error as feeding `a + b`. |
| TarScanner.ChunkingIndependent | src/wheelguard/distributions.py:115-156 | Every way of cutting a stream into feeds gives the result of one feed of the whole. |
| TarScanner.AbsorbWellFormed | src/wheelguard/distributions.py:103-156 | After every successful feed fewer than 512 bytes are carried over, no more than the limit is captured, and the bookkeeping fields agree. |
| TarScanner.AbsorbAligned | src/wheelguard/distributions.py:115-156 | The boundary of the header being received, or of the next one, stays at a multiple of 512 bytes of the stream. |
| TarScanner.HeadersAligned | src/wheelguard/distributions.py:134-144 | Every header that is interpreted is the block of the stream starting at some multiple of 512. |
| TarScanner.TarMetadata.Feed | src/wheelguard/distributions.py:115-156 | The buffered loop computes the byte automaton, from any state and for any data; every pass consumes bytes or returns, and storage stays bounded throughout. |
| TarScanner.TarMetadata.Drain | src/wheelguard/distributions.py:118-133 | Content and padding are consumed as the automaton does; a full drain leaves the scanner at a header. |
| TarScanner.TarMetadata.Open | src/wheelguard/distributions.py:136-156 | One header block is interpreted as by the automaton, with the same error in every refused case. |
| SourceArchive.AcceptsIffSourceArchive | src/wheelguard/distributions.py:103-184 | A stream is accepted with `content` if and only if it is members with one acceptable metadata member holding `content`, then zero blocks, then less than a block. |
| SourceArchive.LayoutUnique | src/wheelguard/distributions.py:115-156 | No stream can be read as two different archives. |
| SourceArchive.TopLevelIff | src/wheelguard/distributions.py:149 | The name test accepts exactly `<dir>/PKG-INFO` with no slash in `<dir>`. |
| SourceArchive.NamesDecide | src/wheelguard/distributions.py:149-156 | By names: an archive is accepted with a content exactly if one member is named `<dir>/PKG-INFO`, is a regular file of 1 byte to 1 MiB and holds it, and no other member has such a name; deeper files of that name do not matter. |
| SourceArchive.NoNameNoMetadata | src/wheelguard/distributions.py:182-183 | Without a member of such a name there is no metadata. |
| SourceArchive.LayoutOfAccepted | src/wheelguard/distributions.py:115-156 | An accepted stream can be cut into members, and the scanner found exactly what they yield. |
| SourceArchive.YieldsSole | src/wheelguard/distributions.py:149-156 | A list of members yields a content exactly if one of them, and only one, is named like metadata and is acceptable. |
| SourceArchive.AbsorbEntries | src/wheelguard/distributions.py:115-156 | Scanning well-formed members succeeds exactly if they yield, and ends between members. |
| SourceArchive.AbsorbZeros | src/wheelguard/distributions.py:138-142 | Zero blocks and a residue after the members are accepted and end the scan. |
| SourceArchive.ZerosOfAccepted | src/wheelguard/distributions.py:138-142 | After the end marker only zero blocks and a residue are accepted. |
| GzipSource.TarMetadataOf | src/wheelguard/distributions.py:159-184 | The result is the metadata of the source archive exactly if the object is a complete gzip stream of one within the expansion limit, whatever chunks the decoder produces; every refusal has the error of the first fault. |
| GzipSource.FailureIsFinal | src/wheelguard/distributions.py:167-177 | A fault in a prefix of the expanded stream is a fault of the whole. |
| GzipSource.GenuineByInspection | src/wheelguard/distributions.py:178-184 | The acceptance test after the loop is the archive grammar of the whole stream. |
| GzipSource.ScanCalls | src/wheelguard/distributions.py:166-177 | The loop ends with the scan of the whole expanded stream exactly if the stream has no fault, and otherwise with the error of its first one. |
| GzipSource.NoFaultIff | src/wheelguard/distributions.py:166-177 | A stream has no fault exactly if no call fails, nothing trails, the bound holds and the archive scans. |
| GzipSource.FaultIsFinal | src/wheelguard/distributions.py:166-177 | The first fault of a stream decides its error, whatever follows. |
| GzipSource.LimitInFigures | src/wheelguard/distributions.py:175 | The bound on the output is 1 MiB for small uploads, a hundred times the upload in between, and 1 GiB for large ones. |
| GzipSource.GenuineIff | src/wheelguard/distributions.py:159-184 | A source has no fault exactly if it is a genuine archive, whose metadata is what the scan found. |
| ZipArchive.UnpackIff | src/wheelguard/distributions.py:44-57 | The field checks on a record hold exactly for the records a writer produces, comment length included. |
| ZipArchive.UnpackWritten | src/wheelguard/distributions.py:44-46 | Unpacking a written record gives back every field and the comment. |
| ZipArchive.LocalHeaderIff | src/wheelguard/distributions.py:75-78 | A block is a written local header with given lengths exactly if signature and both lengths match. |
| ZipArchive.NumberOfField | src/wheelguard/distributions.py:44-46 | A little-endian field in range reads back as the number written. |
| ZipArchive.FieldOfNumber | src/wheelguard/distributions.py:44-46 | Every byte string is the field of its number. |
| ZipMetadata.RFind | src/wheelguard/distributions.py:41 | The last occurrence of the signature, or none at all. |
| ZipMetadata.WindowSearch | src/wheelguard/distributions.py:39-41 | Searching the tail window finds the last signature of the whole file, as far as the window reaches. |
| ZipMetadata.WindowHoldsRecord | src/wheelguard/distributions.py:39-43 | The 65,557-byte window holds the whole record of every archive, whatever its comment, and the search stops at it if and only if the signature does not occur again. |
| ZipMetadata.CommentHidesRecord | src/wheelguard/distributions.py:41-43 | A legal archive whose comment ends in the signature is never read. |
| ZipExample.CommentLosesMetadata | src/wheelguard/distributions.py:41-43 | One archive whose metadata is read with an empty comment, and not read once the comment is the signature. |
| ZipMetadata.CheckedIff | src/wheelguard/distributions.py:36-100 | All slice checks pass with some content exactly if the file is an archive as a writer lays it out, with that metadata. |
| ZipMetadata.CheckedUnique | src/wheelguard/distributions.py:36-100 | At most one end record, one member and one content pass the checks. |
| ZipMetadata.ArchiveUnique | src/wheelguard/distributions.py:36-100 | A file is at most one archive in every one of its parts, with one member and one content. |
| ZipMetadata.Geometry | src/wheelguard/distributions.py:47-55 | On acceptance the directory ends at the record, record and comment end the file, and local header, name and data lie before the directory. |
| ZipNames.TopLevelIff | src/wheelguard/distributions.py:61-66 | The name test accepts exactly `<dir>.dist-info/METADATA` for wheels, `<dir>/PKG-INFO` otherwise, with no slash in `<dir>`. |
| ZipNames.MetadataByName | src/wheelguard/distributions.py:36-100 | By names and recorded fields: a file has a metadata content exactly if it is an archive of which one listed file alone has such a name, is not encrypted, bears that name in its local header, encoded as its flag says, and unpacks to the content with the recorded size, at most 1 MiB, and checksum. |
| ZipReader.Range | src/wheelguard/distributions.py:23-33 | A successful range has exactly the requested length. |
| ZipReader.ReadEnd | src/wheelguard/distributions.py:39-57 | An end record is found exactly if the whole file has one that passes the checks; a missing object, a short object and a file without any record have their own errors. |
| ZipReader.PickSole | src/wheelguard/distributions.py:61-70 | The entry returned is the only candidate; without a single candidate no entry is. |
| ZipReader.Extract | src/wheelguard/distributions.py:85-99 | Stored or deflated data gives `content` exactly if it inflates completely to it with the recorded length and checksum. |
| ZipReader.ReadHeader | src/wheelguard/distributions.py:73-79 | A local header is read exactly if one stands where the directory says and its member ends before the directory; otherwise the error is one of placement. |
| ZipReader.ReadMember | src/wheelguard/distributions.py:71-100 | The range reads give `content` exactly if the whole file has that member, well placed, equally named and intact; oversized, misplaced and differently named members are told apart. |
| ZipReader.ReadMetadata | src/wheelguard/distributions.py:36-100 | Reading by ranges answers `content` if and only if the whole file is an archive with that metadata. |
| Distributions.ValidateDistribution | src/wheelguard/distributions.py:187-229 | A stored object is accepted as a release if and only if file name, fields and the metadata of its archive describe that release; undeclared, unavailable and over-expanding objects have their own status, and an archive that can be read is refused with 400. |
| Distributions.ReleaseInWords | src/wheelguard/distributions.py:187-229 | A stored object is a release exactly if it is a genuine archive, the three names in file name, form and metadata have one canonical form and the three versions one ordering key, and the rest is in order. |
| Distributions.CheckFields | src/wheelguard/distributions.py:189-202 | The name and version returned are declared by file name and fields; a refusal means that none are. |
| Distributions.CheckMetadata | src/wheelguard/distributions.py:207-229 | The release returned is the one the metadata describes; a refusal means that it describes none. |
| Distributions.MatchesMetadataVersion | src/wheelguard/distributions.py:213-214 | Digits, a dot, digits, without a leading zero. |
| Distributions.MetadataVersionShape | src/wheelguard/distributions.py:213-214 | A number without leading zero, a dot, and a number. |
| Distributions.ReadContent | src/wheelguard/distributions.py:203-206 | The content returned is the metadata of the object, by the grammar of its kind of archive; the status is 413 exactly for a tarball whose first fault is its expansion. |
| PublishedDistributions.ContentUnique | src/wheelguard/distributions.py:36-184 | An object holds at most one metadata file, whichever kind of archive it is. |
| PublishedDistributions.ReleaseUnique | src/wheelguard/distributions.py:187-229 | A form and an object are at most one release. |
| PublishedDistributions.MismatchIsRefused | src/wheelguard/distributions.py:194-220 | An archive that can be read is a release of exactly what file name, form and metadata agree on; if they do not agree on one project and one version it is none. |
| PublishedDistributions.InspectionExists | src/wheelguard/distributions.py:187-229 | For any libraries there is a protocol that inspects objects with them, so the two results below assume nothing impossible. |
| PublishedDistributions.PublishedIsVerified | src/wheelguard/private_packages.py:114-148 | In every state of every run, the object of a catalog row is there, hashes to the row's digest, and is a genuine archive of exactly that file, project and version; project and version are those that file name, form and metadata agree on. |
| PublishedDistributions.ServedIsVerified | src/wheelguard/private_packages.py:224-253 | Bytes served for a digest hash to it and are such an archive, of the requested file name. |
| UploadForm.CutsDoNotMatter | src/wheelguard/upload_form.py:97-143 | Cutting a name, value, field or file chunk anywhere changes no quantity of the form, now or after any further callbacks, nor whether it is accepted or with which status it is refused. |
| UploadForm.LawfulIff | src/wheelguard/upload_form.py:87-150 | A history is accepted exactly if no callback of it is refused. |
| UploadForm.LawfulForm | src/wheelguard/upload_form.py:87-143 | In every accepted history both size limits hold, and there is at most one file, safely named. |
| FormRoundTrip.ItemMeaning | src/wheelguard/upload_form.py:92-150 | One part adds exactly its value, or its file, and its cost, and is accepted exactly if that keeps the form within the limits. |
| FormRoundTrip.ItemsMeaning | src/wheelguard/upload_form.py:92-150 | So do all parts of a form, one after another. |
| FormRoundTrip.CuttingIsSame | src/wheelguard/upload_form.py:97-143 | Cutting all callbacks anywhere, into any number of pieces, changes neither meaning nor acceptance. |
| FormRoundTrip.FormRoundTrip | src/wheelguard/upload_form.py:87-153 | Any parts, sent one after another and cut anywhere: the form is accepted exactly if it is within the limits; every name has exactly its values in order; file and file name are those sent. |
| FormRoundTrip.ProtocolIs | src/wheelguard/upload_form.py:164-180 | Over the values sent: action and protocol version once each, digests of the file empty or right and at most one of a kind, no attestations. |
| FormRoundTrip.BodyAccepted | src/wheelguard/upload_form.py:183-223 | A body that parses into such a form is accepted exactly if the form is within the limits, holds one file, not empty, and says the right things. |
| FormRoundTrip.TrueLengthIsAdmissible | src/wheelguard/upload_form.py:186-193 | An accepted body may declare its true length, or none. |
| FormRoundTrip.UsualFormAccepted | src/wheelguard/upload_form.py:183-223 | The usual form of action, protocol version and file is accepted. |
| FormRoundTrip.SafeIff | src/wheelguard/upload_form.py:124 | A safe file name is one of 1 to 255 letters, digits and `_.+-`. |
| UploadForm.UploadForm.BeginPart | src/wheelguard/upload_form.py:92-95 | A part begins exactly if the form limit allows it, otherwise 413; headers and field start afresh. |
| UploadForm.UploadForm.HeaderName | src/wheelguard/upload_form.py:97-99 | Accepted exactly within the form limit, otherwise 413; extends the header name. |
| UploadForm.UploadForm.HeaderData | src/wheelguard/upload_form.py:101-103 | Accepted exactly within the form limit, otherwise 413; extends the header value. |
| UploadForm.UploadForm.EndHeader | src/wheelguard/upload_form.py:105-111 | Accepted exactly if the header is new in its part, otherwise 400. |
| UploadForm.UploadForm.FinishHeaders | src/wheelguard/upload_form.py:113-129 | Accepted exactly for a field, or for the one safely named content file, otherwise 400. |
| UploadForm.UploadForm.Data | src/wheelguard/upload_form.py:131-143 | File data is hashed, counted and kept for storage within the size limit; field data counts against the form limit; beyond a limit 413. |
| UploadForm.UploadForm.EndPart | src/wheelguard/upload_form.py:145-150 | A complete field is recorded exactly if it is UTF-8, otherwise 400. |
| UploadForm.UploadForm.Handle | src/wheelguard/upload_form.py:73-85 | Any callback is accepted exactly if the history allows it, and then every field has the value its history means; a refusal has the status of its callback. |
| UploadForm.UploadForm.Validate | src/wheelguard/upload_form.py:164-180 | A form is valid exactly if it is complete, non-empty and follows the protocol, with every supplied digest matching the file. |
| ReceiveUpload.StreamBytes | src/wheelguard/upload_form.py:28-46 | The chunks concatenate to the reads, none empty and none over 64 KiB. |
| ReceiveUpload.UptoIsConcat | src/wheelguard/upload_form.py:210-218 | The object completed from parts 1..n is those parts in order. |
| ReceiveUpload.PartsSuffice | src/wheelguard/upload_form.py:210-217 | With n full parts stored, at most one more is needed. |
| ReceiveUpload.WellCutInFigures | src/wheelguard/upload_form.py:15-15 | Parts are numbered 1..n, all but the last of exactly 5 MiB, the last of 1 byte to 5 MiB. |
| ReceiveUpload.Feed | src/wheelguard/upload_form.py:206-209 | A write passes exactly if its callbacks are lawful after the history, and otherwise fails with the status of the first refused one; what they add to the file is added to hash and pending bytes. |
| ReceiveUpload.Flush | src/wheelguard/upload_form.py:210-213 | Only full parts are stored; stored parts and pending bytes are exactly the hashed file; it stops only at a part the file needs and storage refuses. |
| ReceiveUpload.Stream | src/wheelguard/upload_form.py:201-213 | The whole body passes only if it has no fault; it fails with the status of its first fault, or because storage refuses a part. |
| ReceiveUpload.RefusalIsFinal | src/wheelguard/upload_form.py:201-213 | The first fault of a body decides its status, whatever follows. |
| ReceiveUpload.StreamedIff | src/wheelguard/upload_form.py:201-213 | A body has no fault exactly if it parses, stays within the limit and is lawful throughout. |
| ReceiveUpload.Seal | src/wheelguard/upload_form.py:215-219 | It succeeds exactly if storage takes every part and confirms the completion; the completed object is the hashed file, all parts but the last full, the last not empty, numbered 1..n; a lost confirmation leaves the object. |
| ReceiveUpload.Transfer | src/wheelguard/upload_form.py:200-223 | Body, storage and outcome are related exactly: success, each failure status, and when an object remains. |
| ReceiveUpload.Admit | src/wheelguard/upload_form.py:185-195 | Exactly which requests are refused before a byte is read, and with which status. |
| ReceiveUpload.ReceiveUpload | src/wheelguard/upload_form.py:183-223 | Succeeds if and only if the request is admissible, its body accepted and storage reliable; then the object is exactly the hashed and counted file in well-cut parts; otherwise there is no object, except after a lost completion of an accepted body. |
| Reception.ReceiptIsFaithful | src/wheelguard/private_packages.py:114-120 | The protocol's first step takes over exactly what `receive_upload` leaves: the stored object, digest, size, fields and file name, or the status of the refusal. |
| Reception.FormIsReceipt | src/wheelguard/private_packages.py:114-120 | The form its caller holds is that receipt. |
| PublicationSteps.BatchEffect | src/wheelguard/private_packages.py:122-148 | The batch publishes, claims and audits together, exactly if the name may be published and the file is new, and is otherwise without effect. |
| PublicationSteps.ResolveMoves | src/wheelguard/private_packages.py:149-162 | After reading the winning row, `discard` is cleared exactly for the upload that won. |
| PublicationSteps.FinishMoves | src/wheelguard/private_packages.py:176-180 | The cleanup rule never deletes the object of a row, and settles every other one. |
| PublicationSteps.OwnRow | src/wheelguard/private_packages.py:109-131 | A row with an upload's key is in that upload's slot. |
| PublicationSteps.StepKeeps | src/wheelguard/private_packages.py:109-180 | Every atomic step, faults included, keeps the invariant and takes back no published fact. |
| PublicationSteps.RunKeeps | src/wheelguard/private_packages.py:109-180 | So does every run of any uploads and approvals. |
| PublicationResults.CommittedObjectSafe | src/wheelguard/private_packages.py:176-180 | Over every run, a catalog row stays the same row and its object stays in the bucket, hashing to the row's digest and inspected as exactly that release. |
| PublicationResults.DeletedNeverHeld | src/wheelguard/private_packages.py:176-180 | Cleanup deletes a key only if no row holds it now or ever will. |
| PublicationResults.OwnershipInvariant | src/wheelguard/private_packages.py:46-83 | In every reachable state a name is claimed exactly if it has an artifact, and a claimed name has no recorded collision or was approved. |
| PublicationResults.OwnershipIsFinal | migrations/0004_private_packages.sql:2-8 | Claims, approvals and non-empty collision lists never change once set. |
| PublicationResults.CollisionBlocks | src/wheelguard/private_packages.py:122-158 | Against an unapproved collision the batch has no effect and the upload is refused and cleaned up. |
| PublicationResults.LateCollisionBlocks | src/wheelguard/private_packages.py:122-158 | The same in every reachable state, even if the collision was recorded after this upload's own check. |
| PublicationResults.ReplyIsDurable | src/wheelguard/private_packages.py:149-165 | After a success reply the catalog holds that digest for that file in every later state. |
| PublicationResults.RepliesAgree | migrations/0004_private_packages.sql:10-28 | No two success replies of a run name the same file with different digests. |
| PublicationResults.RefusedLeavesNothing | src/wheelguard/private_packages.py:166-180 | A refused upload all of whose responses arrived leaves no row and no object, now or later. |
| PublicationResults.UploadObject | src/wheelguard/private_packages.py:109-180 | In every reachable state, the object of an upload is in the bucket exactly if a row holds it, the upload is on its way with its object complete, its commit is uncertain, its completion was lost, or its delete failed. |
| PublicationResults.EveryObject | src/wheelguard/private_packages.py:109-180 | In every reachable state, crashed uploads included, the bucket holds exactly the catalog's objects, those of uploads on their way, and those that a fault left. |
| PublicationResults.Conservation | src/wheelguard/private_packages.py:149-180 | Once all uploads have finished, the bucket holds exactly the catalog's objects and those of uploads whose commit is uncertain, whose completion was lost, or whose delete failed. |
| PublicationResults.OnlyUncertainCommitsRemain | src/wheelguard/private_packages.py:176-180 | Only uncertain commits leave objects behind if and only if no completion was lost and no delete failed. |
| PublicationResults.LostCompletionRemains | src/wheelguard/upload_form.py:218-223 | A run in which the completion is lost: the upload is refused, the catalog is empty, the object stays. |
| PublicationResults.FaultFreeConservation | src/wheelguard/private_packages.py:149-180 | Without faults objects and rows match one to one, so concurrent identical uploads leave one object. |
| PublicationResults.AuditIsExact | src/wheelguard/private_packages.py:137-147 | In every reachable state there is exactly one upload entry per row and one approval entry per approved name, each saying what the catalog says. |
| PublicationResults.ServedBytesVerified | src/wheelguard/private_packages.py:224-253 | A selected row is never unavailable, and the bytes served hash to the requested digest and were inspected. |
| PublicationResults.PublishedIsSelected | src/wheelguard/private_packages.py:224-253 | From its success reply on, a file can be selected by its digest in every state. |
| UploadTurns.UploadAlone | src/wheelguard/private_packages.py:109-180 | An undisturbed upload to any reachable state publishes exactly one new row, object and audit entry if the name is open and the file new, and otherwise changes none of the three; its reply is determined. |
| UploadTurns.RetryChangesNothing | src/wheelguard/private_packages.py:149-165 | Publishing the same bytes again succeeds again and leaves artifacts, audit log and bucket as they are. |
| UploadTurns.AloneIsDetermined | src/wheelguard/private_packages.py:109-180 | All steps of an upload that runs alone to its end lead to the same state. |
| UploadTurns.EndsDone | src/wheelguard/private_packages.py:109-180 | An upload is done after at most ten turns, whatever the outcomes of its awaits. |
| UploadTurns.ClaimDecides | src/wheelguard/private_packages.py:46-83 | Check, upsert and recheck together let an upload pass exactly if the name is claimed, approved, or neither recorded nor found publicly. |
| UploadTurns.CommitDecides | src/wheelguard/private_packages.py:149-180 | Commit, read back and cleanup in closed form: a new row with its object, or no change. |
| PrivatePackages.PrivatePackages.Upload | src/wheelguard/private_packages.py:109-180 | For every outcome of every await and every interference, the execution is a run of the protocol made of the upload's own turns and the others' steps, ends done, and its reply tells the truth about catalog and bucket; without interference it is the one determined result. |
| PrivatePackages.PrivatePackages.Claimable | src/wheelguard/private_packages.py:46-83 | The check passes only by a read that allows the commit with no await in between, and refuses without touching the flags. |
| PrivatePackages.PrivatePackages.Batch | src/wheelguard/private_packages.py:122-148 | The three statements in order are the atomic commit of the protocol, also when the response is lost. |
| PrivatePackages.PrivatePackages.Resolve | src/wheelguard/private_packages.py:149-162 | `discard` and `commit_attempted` are what the protocol says after the read back. |
| PrivatePackages.PrivatePackages.Finally | src/wheelguard/private_packages.py:176-180 | The finally clause, looking at the three flags only, takes the cleanup step of the protocol and ends the upload with the recorded reply. |
| PrivatePackages.PrivatePackages.ApproveProject | src/wheelguard/worker.py:145-184 | An approval is refused, without effect, exactly for a name without recorded collisions; otherwise the run goes on by its read, the others' steps and its batch, and nothing else; a success leaves the name approved, and alone it is the administrator's batch on what was read. |
| PrivatePackages.PrivatePackages.Acknowledge | src/wheelguard/worker.py:164-183 | The two statements in order are the approval batch of the protocol on what was read. |
| PrivatePackages.FinishedUpload | src/wheelguard/private_packages.py:163-180 | Of a finished upload: a success has its row and object, a certain refusal has no object. |
| PrivateService.TransactionIsBatch | src/wheelguard/postgres.py:282-344 | The PostgreSQL publication transaction has the effect of the D1 batch, though its audit condition reads differently. |
| PrivateService.PublishIsBatchThenRead | src/wheelguard/private_service.py:56-75 | Transaction and flag updates are the commit and the read back of the protocol with nothing in between. |
| PrivateService.LostPublishIsLostBatch | src/wheelguard/private_service.py:56-78 | A lost transaction response is a lost commit response of the protocol. |
| PrivateService.RecordIsUpsertThenRead | src/wheelguard/postgres.py:264-280 | Recording collisions in one transaction is the upsert and the recheck of the protocol. |
| ReleasePolicy.ApplyRelease | src/wheelguard/policy.py:78-128 | The loop shows exactly the files that are not blocked and are allowed, old enough or let through by the fallback, in order, and keeps versions accordingly. |
| ReleasePolicy.ApplyMinimumAge | src/wheelguard/policy.py:35-68 | The age-only loop is the policy without actions. |
| ReleasePolicy.NoOverridesIsMinimumAge | src/wheelguard/policy.py:35-128 | Without overrides both policies agree, whatever the fallback age. |
| ReleasePolicy.ApplyIdempotent | src/wheelguard/policy.py:78-128 | Applying the policy to its own result changes nothing. |
| ReleasePolicy.LaterShowsMore | src/wheelguard/policy.py:94-128 | For fixed overrides a later clock never removes a file or a listed version. |
| ReleasePolicy.DroppedIffOnlyHidden | src/wheelguard/policy.py:122-162 | A listed version is dropped exactly if some file of its key is hidden and none is shown. |
| ReleasePolicy.FilesArePartitioned | src/wheelguard/policy.py:98-128 | Shown and hidden files together are the input, and the counts are theirs. |
| Vulnerabilities.PayloadVersions | src/wheelguard/vulnerabilities.py:19-29 | The version list has the text of every parsed file, each once, and is sorted by version. |
| Vulnerabilities.AutomaticFixedVersionAllows | src/wheelguard/vulnerabilities.py:83-117 | The result is the newest eligible version, under its first text, exactly if there is an advisory, no aged clean file and some eligible one; a scan whose identifier lists are all empty gives none. |
| Vulnerabilities.FallbackInWords | src/wheelguard/vulnerabilities.py:94-117 | Over identifiers, times and versions: there is a fallback exactly if some version has an identifier, some file past the fallback age only is of a clean version, and none past the minimum age or untimed is; it is the text of such a file of the newest version. |
| Vulnerabilities.CleanScanNoFallback | src/wheelguard/vulnerabilities.py:94-95 | A scan that found nothing lets nothing through. |
| Vulnerabilities.FallbackSound | src/wheelguard/vulnerabilities.py:83-117 | In the merged listing a file of a parsed version is shown if and only if it is allowed, or unblocked and old enough, or not overridden and a clean file past the fallback age of the one fallback version. |
| Vulnerabilities.FallbackIsNewest | src/wheelguard/vulnerabilities.py:94-117 | When the fallback applies no aged clean file exists and no eligible version is newer. |
| Vulnerabilities.FallbackAvailable | src/wheelguard/vulnerabilities.py:94-117 | With an advisory and a clean file past the fallback age, the listing offers a clean file exactly unless an untimed clean file suppresses the fallback, the policy hides it, and no timed clean file is old enough. |
| Vulnerabilities.UntimedSuppressesFallback | src/wheelguard/vulnerabilities.py:94-117 | An untimed clean file and a recent clean one past the fallback age: the only merged listing offers neither. |
| Vulnerabilities.ApplyAdvisories | src/wheelguard/vulnerabilities.py:61-80 | Exactly the files of vulnerable versions are marked, keeping an existing reason in front. |
| Vulnerabilities.MarkInWords | src/wheelguard/vulnerabilities.py:70-79 | A marked file carries its identifiers and says so after any reason of its own; nothing else changes. |
| Vulnerabilities.MarkingHidesNothing | src/wheelguard/vulnerabilities.py:61-80 | Marked files stay available: neither policy nor fallback changes. |
| AdvisoryCache.ParseOsvResults | src/wheelguard/vulnerabilities.py:38-58 | A response is accepted exactly if it has one well-formed result per version, and then maps each version to its last identifiers and nothing else. |
| AdvisoryCache.QueryOsv | src/wheelguard/cloudflare_index.py:442-471 | The batched query succeeds exactly if every batch has a usable response, and covers exactly the queried versions; for a service answering each version on its own that means that every version has an answer, and the result agrees with it. |
| AdvisoryCache.BatchesAgree | src/wheelguard/cloudflare_index.py:442-471 | The batched answer is the answer of a single query over the whole list. |
| AdvisoryCache.AdvisoryCache.Store | src/wheelguard/cloudflare_index.py:473-501 | The new scan replaces every scan of its project and of no other; at most one scan per project remains. |
| AdvisoryCache.AdvisoryCache.Evaluate | src/wheelguard/cloudflare_index.py:390-417 | For the versions of the payload: a hit exactly if a scan of them within the TTL is stored and no refresh is forced; stale or error exactly if the query was needed and failed, with or without an older scan of them; a miss is stored as of now; every answer covers exactly these versions. |
| AdvisoryCache.AdvisoryCache.Latest | src/wheelguard/cloudflare_index.py:747-759 | The gate reads the project's only scan, whatever versions it is of. |
| DownloadGate.AgeDenial | src/wheelguard/cloudflare_index.py:781-821 | No denial exactly if some matching file is shown by age or fallback alone. |
| DownloadGate.ArtifactPolicyDenial | src/wheelguard/cloudflare_index.py:728-779 | An artifact passes if and only if its release is allowed, or it is an unoverridden file that the merged policy shows under the stored scan, with a clean scan strictly younger than the TTL while scanning is on, and its name is unclaimed; each kind of denial has its exact condition. |
| DownloadGate.SilentOverrides | src/wheelguard/cloudflare_index.py:253-269 | For any advisories, overrides that do not speak about a file do not change whether it is shown. |
| DownloadGate.ListingByVersion | src/wheelguard/cloudflare_index.py:781-821 | The gate's recomputation without overrides agrees with the merged policy for every row without one. |
| DownloadGate.ListingScan | src/wheelguard/cloudflare_index.py:390-417 | Whatever its status, the evaluation of a listing and the scan that a gate reads right after it are related as stated: own versions and age for hit, miss and stale, and for an error at most a scan of other versions. |
| DownloadGate.GateRefinesListing | src/wheelguard/cloudflare_index.py:728-821 | What the gate serves is shown by the listing of the same instant, if the project has the file, for every status but an error; after an error it is shown exactly if its release is allowed or the file is old enough; on a stale or empty listing only allowed releases are served. |
| DownloadGate.ErrorServesHidden | src/wheelguard/cloudflare_index.py:747-779 | An instant at which the service fails and the gate serves, by a scan of other versions, a file that the listing hides. |
| DownloadGate.VersionListed | src/wheelguard/cloudflare_index.py:401-407 | Every parsed file of the project has its text among the evaluated versions. |
| DownloadGate.ListedForGate | src/wheelguard/cloudflare_index.py:781-821 | A file listed under any evaluation is not blocked, and shown under the gate's advisories too. |
| DownloadGate.CleanListing | src/wheelguard/cloudflare_index.py:253-269 | Without an identifier on any version, a listing shows a file exactly if its release is allowed, or it is not blocked and past the minimum age. |
| DownloadGate.CleanGate | src/wheelguard/cloudflare_index.py:728-821 | And the gate serves an artifact without an override only past the minimum age. |
| DownloadGate.RowLinkWorks | src/wheelguard/cloudflare_index.py:728-821 | The rows made from a listed file with a lower-case digest are permitted exactly when name, version, override and scan permit it, whatever the listing evaluated. |
| DownloadGate.FallbackExists | src/wheelguard/vulnerabilities.py:114-117 | Every evaluation has a fallback result. |
| DownloadGate.FallbackUnique | src/wheelguard/vulnerabilities.py:114-117 | It has only one. |
| DownloadGate.RegisteredRowsCoherent | src/wheelguard/cloudflare_index.py:548-597 | Registered rows carry the version text of their distribution, sidecars included. |
| DownloadGate.LinkByStatus | src/wheelguard/cloudflare_index.py:390-417 | Without an override: with scanning off links work; on a hit or miss exactly for a version without advisory, but for a hit at exactly the TTL; on a stale listing never; after an error only by a scan of other versions that covers the release. |
| DownloadGate.GapExactlyAtTtl | src/wheelguard/cloudflare_index.py:774-775 | For a clean file listed on a hit, the link fails at a scan age of exactly the TTL and at no other. |
| DownloadGate.OldScanNotServed | src/wheelguard/cloudflare_index.py:406-416 | A clean old file listed by a hit at the TTL, and by a stale listing at any later age, is served by neither. |
| DownloadGate.MixedCaseDigest | src/wheelguard/cloudflare_index.py:816-817 | A listed file whose digest is not lower case is served only if its release is allowed or the file is listed again with the folded digest. |
| DownloadGate.MixedCaseDenied | src/wheelguard/cloudflare_index.py:816-817 | One listed file with a mixed-case digest and nothing else wrong, denied. |
| Registration.ArtifactTable.RegisterRecords | src/wheelguard/cloudflare_index.py:599-632 | One statement upserts its records one after the other. |
| Registration.ArtifactTable.RegisterAndRewrite | src/wheelguard/cloudflare_index.py:548-597 | The table is that of upserting the records of all listed files in order, batches of 500 or not; the files kept are those that pass the checks. |
| Registration.UpsertedAppend | src/wheelguard/cloudflare_index.py:594-595 | Upserting in batches is upserting. |
| Registration.LastStays | src/wheelguard/cloudflare_index.py:618-627 | Of the records with one digest and file name the last one stays. |
| Registration.StaysAmong | src/wheelguard/cloudflare_index.py:618-627 | A row is one of the records with its key, or what it was if there are none. |
| Registration.RowsAreOfCheckedFiles | src/wheelguard/cloudflare_index.py:559-593 | Every row written is of a listed file that passed the checks, under its folded digest. |
| Registration.ArtifactStored | src/wheelguard/cloudflare_index.py:569-579 | The row stored for a listed artifact is its own, unless a sidecar takes its key. |
| Registration.ArtifactFields | src/wheelguard/cloudflare_index.py:569-579 | The row of an artifact field by field; it is verified by its own folded digest. |
| Registration.SidecarFields | src/wheelguard/cloudflare_index.py:580-593 | The row of a sidecar is verified by the metadata digest of a listed file of that name and digest, unless a file named like the sidecar took it. |
| Registration.NotTaken | src/wheelguard/cloudflare_index.py:581-593 | No sidecar takes the key of a file whose version parses. |
| Registration.ListedLinkWorks | src/wheelguard/cloudflare_index.py:728-821 | Whatever the listing evaluated, the link of a listed file with a lower-case digest, decided by the row stored for it, works exactly when name, version, override and scan permit it. |
| Registration.SidecarLinkWorks | src/wheelguard/cloudflare_index.py:809-820 | The link of a sidecar, decided by the row stored for it, works exactly if the artifact's conditions hold, the row carries the file's version, and, unless the release is allowed, a shown file has the folded digest and the stored metadata digest. |
| Registration.UndisputedSidecarWorks | src/wheelguard/cloudflare_index.py:809-820 | If no other listed file takes its row over, a sidecar's link works exactly when its artifact's does. |
| Registration.SidecarReplaced | src/wheelguard/cloudflare_index.py:566-593 | A listing with the same file twice, in two spellings of the digest and with two metadata digests: the first file's sidecar link is denied. |
| Registration.SidecarUnnamed | src/wheelguard/cloudflare_index.py:566-593 | A listing with a second file named like the sidecar: the sidecar's link is denied for lack of a version. |
| Overrides.OverrideTable.RevokeActive | src/wheelguard/postgres.py:475-491 | Revoking succeeds exactly for an active override, which it revokes and audits; a refusal changes nothing. |
| Overrides.OverrideTable.Create | src/wheelguard/postgres.py:415-473 | Creating, or replacing an active override, succeeds exactly under the stated conditions; table and log change together or not at all. |
| Overrides.OverrideTable.Run | src/wheelguard/postgres.py:415-491 | Over every run of requests each override stays accounted for, the log only grows, revocations are final and nothing else of an override changes. |
| Overrides.LifecycleIsExact | src/wheelguard/postgres.py:415-491 | An override exists exactly if it has one creation entry, is revoked exactly if one entry revokes it, and has at most one successor, which then revoked it. |
| Overrides.LifecycleInWords | src/wheelguard/postgres.py:415-491 | Entry by entry: an override exists exactly if one entry created it, is revoked exactly if one entry revoked it, and no two entries were created in its place. |
| Overrides.CreateAccounted | src/wheelguard/postgres.py:444-473 | A creation entry together with its row keeps the accounts of every override. |
| Overrides.RevokeAccounted | src/wheelguard/postgres.py:479-491 | So does a revocation entry. |
| Overrides.OverrideTable.Query | src/wheelguard/cloudflare_index.py:355-366 | The rows of the query are the overrides of the project that are neither revoked nor expired, newest first. |
| Overrides.OverrideTable.ActiveOverrides | src/wheelguard/cloudflare_index.py:352-372 | A version gets an action exactly if an override of that project and version is unrevoked and unexpiring or expires strictly later, and then that of a newest such override. |
| Overrides.OverrideTable.AfterRevocation | src/wheelguard/postgres.py:475-491 | After a revocation, and whatever requests follow, every action comes from another, unrevoked override. |
| Overrides.OverrideTable.AfterCreation | src/wheelguard/postgres.py:415-473 | An override that was created gives its version an action until it is revoked, replaced or expired; its own, while it is the newest. |

## Left out

- ReceiveUpload.ReceiveUpload: starting the multipart upload and reading the request succeed; reader cancellation is not modelled. If storage refuses a part of a body that is also faulty, either status may be the one reported.
- AdvisoryCache.AdvisoryCache.Evaluate: the versions key, a SHA-256 of the list, is the list itself; unreadable stored rows are absent rows. Versions that compare equal but are written differently keep the order of their files; in the source that order is arbitrary.
- Library parsers and functions are parameters: tar header decoding, ZIP directory parsing and name encoding, zlib, hashes and checksums, `python_multipart`, the `Content-Disposition` parser, UTF-8, PEP 440 file names and versions, timestamps.
- Library parsers of the core metadata are parameters as well: the email parser, name normalization and version specifiers.
- GzipSource.TarMetadataOf: the inner loop that re-feeds the unconsumed tail is one list of decoder results; zlib decides its length.
- ZipReader.ReadMetadata: a file name that its own encoding cannot represent is taken not to occur.
- PrivatePackages.PrivatePackages.Upload: request method, token and settings are checked before the modelled part; timeouts and exceptions of an await are outcomes of the environment.
- PrivatePackages.PrivatePackages.ApproveProject: name validation and the cross-origin check come before.
- SQL text and isolation are not modelled: a batch or transaction is one atomic step over maps. Separate PostgreSQL statements at READ COMMITTED are not claimed to keep the ownership invariant.
- Serving of public artifacts (fetching, hashing and caching an upstream file) and of private listings is not modelled beyond the row a download selects.
- Requests with a clock that lacks a time zone raise in the source; times here are integers.
- Vulnerabilities.ApplyAdvisories: identifiers are sets, so the sorted order inside a reason is not modelled.
- Vulnerabilities.FallbackIsNewest: assumes that files with the same version text have the same ordering key, which holds because the text is printed from the version.
- DownloadGate.ArtifactPolicyDenial: stated for rows whose version text is that of their file name, which registration guarantees (`RegisteredRowsCoherent`).
- Registration.ArtifactTable.RegisterAndRewrite: source addresses and sizes of rows, and the rewritten links themselves, are not modelled; the checks of `_safe_artifact` are one predicate. Another project that lists the same digest and file name later takes the row over; the results are about the instant of the listing.
- DownloadGate.RegisteredRowsCoherent: no distribution file name ends in `.metadata`, because wheel names end in `.whl` and source names in `.tar.gz` or `.zip`.
- Overrides.OverrideTable.Run: identifiers are fresh, as uuid4 makes them; a malformed identifier raises before the transaction. The revocation path of the Worker checks before its batch, so exactly-once revocation is claimed for PostgreSQL only.
- HTTP routing, administration pages, configuration, authentication, redirects and URL allowlists.
