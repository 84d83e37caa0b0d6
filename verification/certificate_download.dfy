/** The certificate download hook, reduced to what it decides: the PDF
    file name and the true/false result. Rendering the certificate to a
    canvas and embedding it in a PDF are foreign libraries; whether each of
    those steps throws is a parameter. */
module CertificateDownload {
  import opened Wrappers
  import opened Text
  import opened Naming

  const PdfExtension := ".pdf"

  /** The certificate fields the hook receives. */
  datatype CertificateData = CertificateData(
    fullName: string,
    role: string,
    startDate: string,
    endDate: string,
    certificateId: string,
    verificationCode: string)

  /** The step at which the hook's body threw, if any: rasterising the
      certificate, building the PDF, or saving it. */
  datatype Failure = NoFailure | RenderThrows | PdfThrows | SaveThrows

  /** What a call leaves behind: the name of the saved file, if the save
      went through, and the hook's boolean result. */
  datatype Download = Download(saved: Option<string>, result: bool)

  function DownloadCertificate(data: CertificateData, failure: Failure): (d: Download)
    ensures d.result <==> d.saved.Some?
    ensures d.result <==> failure.NoFailure?
    ensures d.saved.Some? ==> d.saved.value == CertificateFileName(data.fullName, PdfExtension)
  {
    if failure.NoFailure? then
      Download(Some(CertificateFileName(data.fullName, PdfExtension)), true)
    else Download(None, false)
  }

  /** The saved file's name: the name with no white space left in it,
      followed by `_Certificate.pdf`. */
  lemma SavedFileNameShape(data: CertificateData)
    ensures var d := DownloadCertificate(data, NoFailure);
            var name := d.saved.value;
            var stem := name[..|name| - |CertificateSuffix + PdfExtension|];
            && d.result
            && name == stem + "_Certificate.pdf"
            && NoSpace(stem)
  {
    var name := CertificateFileName(data.fullName, PdfExtension);
    var n := |name| - |CertificateSuffix + PdfExtension|;
    assert name == name[..n] + name[n..];
  }

  /** Every non-white-space character of the name appears in the file
      name, unchanged and in the same order; a leading or trailing
      white-space run is not trimmed but turned into `_`. */
  lemma FileNameKeepsName(fullName: string, i: int, j: int)
    requires 0 <= i < j < |fullName| && !IsSpace(fullName[i]) && !IsSpace(fullName[j])
    ensures var name := CertificateFileName(fullName, PdfExtension);
            var p, q := |Collapse(fullName[..i])|, |Collapse(fullName[..j])|;
            p < q < |Collapse(fullName)| && name[p] == fullName[i] && name[q] == fullName[j]
  {
    CollapseKeepsChar(fullName, i);
    CollapseKeepsChar(fullName, j);
    CollapseKeepsOrder(fullName, i, j);
  }

  /** Padding is not trimmed: a name surrounded by white-space runs gets
      a `_` at each end. */
  lemma PaddedNameKeepsUnderscores(lead: string, word: string, trail: string)
    requires lead != [] && AllSpace(lead) && trail != [] && AllSpace(trail)
    requires word != [] && NoSpace(word)
    ensures CertificateFileName(lead + word + trail, PdfExtension)
            == "_" + word + "_" + CertificateSuffix + PdfExtension
  {
    CollapsePadded(lead, word, trail);
  }
}
